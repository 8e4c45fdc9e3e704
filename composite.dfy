/**
 * compositeBackgroundAndFriend: what the composite canvas becomes for a
 * given set of specified images — its drawing-surface size, the zoom that
 * fits it into the view, the order and geometry of the two drawImage
 * calls, or the cleared canvas when neither image is specified.
 */
module Composite {
  import opened Placement

  /** A width and a height in canvas pixels. */
  datatype Size = Size(width: real, height: real)

  /** The friend's off-screen size multiplied by the zoom slider's value. */
  function Scaled(s: Size, zoom: real): Size {
    Size(s.width * zoom, s.height * zoom)
  }

  /** The canvases drawImage copies from. */
  datatype Source = BackgroundCanvas | FilteredFriendCanvas | OriginalFriendThumbnail

  /** One drawImage call: source, destination corner and destination size. */
  datatype Draw = Draw(source: Source, x: real, y: real, width: real, height: real)

  /**
   * The composite canvas after one call: cleared, or rendered with a
   * surface size, the canvas zoom and view zoom it records for dragging,
   * its CSS width, and the drawImage calls in order.
   */
  datatype Plan =
    | Cleared
    | Rendered(surface: Size, canvasZoom: real, viewZoom: real, cssWidth: real, draws: seq<Draw>)

  /** parseInt of a CSS pixel length: the integer part, truncated toward zero. */
  function ParseInt(x: real): (n: int)
    ensures 0.0 <= x ==> n as real <= x < n as real + 1.0
    ensures x < 0.0 ==> n as real - 1.0 < x <= n as real
  {
    if x >= 0.0 then x.Floor else -((-x).Floor)
  }

  /**
   * The canvas zoom: 1 when the surface is narrower than the view,
   * otherwise the factor that shrinks it to the view's width.
   */
  function FitZoom(width: real, viewWidth: real): (z: real)
    requires viewWidth > 0.0
    ensures 0.0 < z <= 1.0
    ensures width * z <= viewWidth
    ensures z == 1.0 <==> width <= viewWidth
    ensures viewWidth <= width ==> width * z == viewWidth
  {
    if width < viewWidth then 1.0
    else
      var z := viewWidth / width;
      assert width * z == viewWidth;
      z
  }

  /**
   * The CSS width of the composite canvas: the surface width, or the view
   * width when the surface is not narrower, read back with parseInt and
   * multiplied by the view zoom.  It lies less than one pixel (times the
   * view zoom) below the fitted width times the view zoom.
   */
  function CssWidth(surfaceWidth: real, viewWidth: int, viewZoom: real): (css: real)
    ensures var fitted := if surfaceWidth < viewWidth as real then surfaceWidth else viewWidth as real;
      0.0 <= fitted && 0.0 <= viewZoom ==> (fitted - 1.0) * viewZoom <= css <= fitted * viewZoom
  {
    var fitted := if surfaceWidth < viewWidth as real then surfaceWidth else viewWidth as real;
    var n := ParseInt(fitted);
    if 0.0 <= fitted && 0.0 <= viewZoom then
      ScaleMonotone(fitted - 1.0, n as real, viewZoom);
      ScaleMonotone(n as real, fitted, viewZoom);
      n as real * viewZoom
    else n as real * viewZoom
  }

  /** The drawImage call for the background, if one is specified: at its natural size, at the origin. */
  function BackgroundDraws(background: Option<Size>): seq<Draw> {
    if background.Some? then [Draw(BackgroundCanvas, 0.0, 0.0, background.value.width, background.value.height)]
    else []
  }

  /** The drawImage call for the friend, if one is specified: scaled, at the slider position. */
  function FriendDraws(friend: Option<Size>, zoom: real, x: real, y: real, originalFriend: bool): seq<Draw> {
    if friend.Some? then
      var source := if originalFriend then OriginalFriendThumbnail else FilteredFriendCanvas;
      var size := Scaled(friend.value, zoom);
      [Draw(source, x, y, size.width, size.height)]
    else []
  }

  /**
   * compositeBackgroundAndFriend for the given images (None: not
   * specified), friend zoom, view width (the canvas's own computed CSS
   * width once its inline width is cleared), view zoom, slider position
   * and choice of original or filtered friend.
   */
  function CompositePlan(background: Option<Size>, friend: Option<Size>, zoom: real, viewWidth: int,
                         viewZoom: real, x: real, y: real, originalFriend: bool): (p: Plan)
    requires viewWidth > 0
    ensures p.Cleared? <==> background.None? && friend.None?
    ensures background.Some? ==> p.Rendered? && p.surface == background.value
    ensures background.None? && friend.Some? ==> p.Rendered? && p.surface == Scaled(friend.value, zoom)
    ensures p.Rendered? ==>
              && p.viewZoom == viewZoom && 0.0 < p.canvasZoom <= 1.0
              && p.surface.width * p.canvasZoom <= viewWidth as real
              && (p.canvasZoom == 1.0 <==> p.surface.width <= viewWidth as real)
    ensures p.Rendered? ==> p.cssWidth == CssWidth(p.surface.width, viewWidth, viewZoom)
    ensures p.Rendered? ==> |p.draws| == (if background.Some? then 1 else 0) + (if friend.Some? then 1 else 0)
    ensures background.Some? ==> p.draws[0] == Draw(BackgroundCanvas, 0.0, 0.0, background.value.width, background.value.height)
    ensures friend.Some? ==>
              && p.Rendered?
              && p.draws[|p.draws| - 1] ==
                   Draw(if originalFriend then OriginalFriendThumbnail else FilteredFriendCanvas,
                        x, y, friend.value.width * zoom, friend.value.height * zoom)
  {
    if background.None? && friend.None? then Cleared
    else
      var surface := if background.Some? then background.value else Scaled(friend.value, zoom);
      Rendered(surface, FitZoom(surface.width, viewWidth as real), viewZoom,
               CssWidth(surface.width, viewWidth, viewZoom),
               BackgroundDraws(background) + FriendDraws(friend, zoom, x, y, originalFriend))
  }

  /** With both images, exactly two calls: the background first, the friend drawn over it. */
  lemma FriendOverBackground(background: Size, friend: Size, zoom: real, viewWidth: int,
                             viewZoom: real, x: real, y: real, originalFriend: bool)
    requires viewWidth > 0
    ensures var p := CompositePlan(Some(background), Some(friend), zoom, viewWidth, viewZoom, x, y, originalFriend);
      p.Rendered? && |p.draws| == 2 && p.draws[0].source == BackgroundCanvas && p.draws[1].source != BackgroundCanvas
  {
  }

  /** Without a background the surface has the scaled friend's size, so a friend at the origin covers it exactly. */
  lemma FriendAloneFillsSurface(friend: Size, zoom: real, viewWidth: int, viewZoom: real, originalFriend: bool)
    requires viewWidth > 0
    ensures var p := CompositePlan(None, Some(friend), zoom, viewWidth, viewZoom, 0.0, 0.0, originalFriend);
      p.Rendered? && |p.draws| == 1 && p.draws[0].x == 0.0 && p.draws[0].y == 0.0
      && p.draws[0].width == p.surface.width && p.draws[0].height == p.surface.height
  {
  }

  lemma ScaleMonotone(a: real, b: real, k: real)
    requires a <= b && k >= 0.0
    ensures a * k <= b * k
  {
    assert b * k - a * k == (b - a) * k;
  }

  /**
   * The right-align button sets x to the unscaled width difference, while
   * the friend is drawn zoom times its width: its drawn right edge meets
   * the background's right edge exactly when the zoom is 1 (or the friend
   * has no width).
   */
  lemma RightSnapFlushOnlyUnzoomed(size: CompositeSize, zoom: real, y: real, originalFriend: bool)
    ensures var friend := Size(size.friendWidth as real, size.friendHeight as real);
      var x := AlignTarget(Right, size).position as real;
      var drawn := FriendDraws(Some(friend), zoom, x, y, originalFriend)[0];
      drawn.x + drawn.width == size.backgroundWidth as real <==> zoom == 1.0 || size.friendWidth == 0
  {
    var fw := size.friendWidth as real;
    var x := AlignTarget(Right, size).position as real;
    assert x == size.backgroundWidth as real - fw;
    ProductZero(fw, zoom - 1.0);
    assert fw * zoom - fw == fw * (zoom - 1.0);
  }

  lemma ProductZero(a: real, b: real)
    ensures a * b == 0.0 <==> a == 0.0 || b == 0.0
  {
  }
}
