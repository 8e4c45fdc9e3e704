# Boku no Friend: filters, placement, composite and drag, in Dafny

Boku no Friend is a browser page that takes a "friend" (subject) photo and a
background photo. It turns the friend into a translucent gray outline with
a cheap one-pass pseudo edge filter, grays the background, and draws the
outlined friend over the background at a position the user sets with
sliders, alignment buttons or by dragging. This project models the core of
`docs/bokuno_friend.js` and proves properties of that model:

- **Pixel store** (`uint8_clamp.dfy`). A canvas `ImageData` buffer is a
  `Uint8ClampedArray`. Every value written into it goes through
  ECMAScript's ToUint8Clamp (section 7.1.12 of ECMA-262): clamp to
  [0, 255], then round half to even. The gray average of R, G and B stores
  as `(R + G + B + 1) / 3`. The edge-recoding formula stores clamped and
  never wraps.
- **Grayscale** (`grayscale.dfy`). `processGrayScale` and
  `filteringBackground` work in place on an `array`. The background loop
  stops at `length - 4`, so the last pixel keeps its colour.
- **Friend filter** (`friend_filter.dfy`, `pixel_index.dfy`,
  `friend_properties.dfy`). `filteringFriend` and `processAlpha` work in
  place on an `array`.
  - The method is proved to leave exactly `FriendFiltered(input)`. This is
    a pixel-by-pixel definition: interior pixels are recoded from the input.
    Last-column pixels copy their left neighbour's final RGBA. Last-row
    pixels take the row above's final colour.
  - The proof goes through `FilterRule`, a description of what each loop
    branch writes. It shows that `FriendFiltered` obeys the rule and is its
    only solution.
  - Lemmas cover the following: every output pixel is gray; a pixel is
    either transparent with the plain value or has the edge alpha; the
    copy rules; locality; the input alpha is ignored; a uniform image
    becomes fully transparent.
- **Placement** (`placement.dfy`). The slider ranges set after filtering
  and the four alignment buttons.
- **Composite** (`composite.dfy`). What `compositeBackgroundAndFriend` does
  to the composite canvas: surface size, fit zoom, CSS width, the order and
  geometry of the `drawImage` calls, or a cleared canvas.
- **Drag** (`drag_session.dfy`). The drag handlers as a state machine.
  - Pure transitions, one per handler, and runs of pointer events. Proved:
    a release keeps the last move's position; leaving the canvas restores
    the start position.
  - `DragSession`, a class over the same state, whose methods are proved
    against those transitions.
- **Layout switch** (`layout.dfy`). The four-layout cycle with its fallback
  to `type01`.

Two facts of the code shape the pixel model:

- `ImageData.data` is a `Uint8ClampedArray` (docs/bokuno_friend.js:312-313),
  so every store clamps to [0, 255] and rounds to nearest. The gray average
  rounds, and the edge formula clamps; nothing wraps modulo 256.
- `filteringFriend` has no guard for images under 2 x 2, so
  `FriendFilter.Shape` requires `w >= 2` and `h >= 2`.

Numbers read from sliders are exact reals or integers. The browser's
double arithmetic is not modelled.

## Model

| member | source | states |
|---|---|---|
| Uint8Clamp.ToUint8Clamp | docs/bokuno_friend.js:33-35 | a store into the pixel buffer gives 0 at or below 0, 255 at or above 255, and otherwise a value within 1/2 of the real stored |
| Uint8Clamp.ClampByte | docs/bokuno_friend.js:97-100 | an integer is clamped into [0, 255]: 0 below, 255 above, unchanged inside |
| Uint8Clamp.StoreInteger | docs/bokuno_friend.js:97-100 | storing the integer result of the edge formula clamps it rather than wrapping it modulo 256 |
| Uint8Clamp.GrayAverage | docs/bokuno_friend.js:32-35 | the gray value v stored in R, G and B is within a third of the exact average: 3v - 1 <= R + G + B <= 3v + 1 |
| Uint8Clamp.StoreAverage | docs/bokuno_friend.js:32-35 | storing the exact quotient (R + G + B) / 3 in the clamped buffer yields GrayAverage |
| Uint8Clamp.GrayAverageOfGray | docs/bokuno_friend.js:32-35 | averaging a pixel that is already gray gives back its value |
| Uint8Clamp.EdgeAlpha | docs/bokuno_friend.js:61 | the edge alpha is within 1/2 of 255 - 2.55 * transparency for a transparency in [0, 100]; 255 at or below 0%, 0 at or above 100% |
| GrayScale.ProcessGrayScale | docs/bokuno_friend.js:30-36 | the three given slots all end with the gray average of their old values; every other slot is unchanged |
| GrayScale.FilteringBackground | docs/bokuno_friend.js:128-134 | the buffer ends as BackgroundFiltered of its old contents: every pixel but the last grayed in place, alphas kept |
| GrayScale.BackgroundPixelGray | docs/bokuno_friend.js:130-133 | every pixel with a successor pixel ends with R = G = B = (R + G + B + 1) / 3 of its input, and its alpha unchanged |
| GrayScale.BackgroundLastPixelUnchanged | docs/bokuno_friend.js:130 | the loop bound length - 4 leaves all four slots of the last pixel unchanged |
| GrayScale.BackgroundIdempotent | docs/bokuno_friend.js:128-134 | filtering an already filtered background changes nothing |
| PixelIndex.LastColumnTest | docs/bokuno_friend.js:78 | the test (i + 4) % (width * 4) == 0 for the R, G or B slot i = 4p + c holds exactly for the R slot of the last pixel of a row |
| PixelIndex.LastColumnHasLeft | docs/bokuno_friend.js:80-83 | in an image at least two pixels wide, a last-column pixel has a left neighbour in its own row, so reading data[i - 4] stays in the row |
| FriendFilter.AlphaRecoded | docs/bokuno_friend.js:52-63 | processAlpha leaves R = G = B; the pixel is either transparent (alpha 0) with the plain value or has the edge alpha; a gray pixel keeps its value |
| FriendFilter.FriendFiltered | docs/bokuno_friend.js:46-120 | the filtered buffer has the input's length |
| FriendFilter.FilteredObeysRule | docs/bokuno_friend.js:70-119 | the filtered buffer satisfies the loop's rule for every pixel: last-column pixels of upper rows repeat the previous four slots, all others are processAlpha of their recoded or copied-from-above R, G and B |
| FriendFilter.RuleDetermines | docs/bokuno_friend.js:70-119 | any buffer satisfying that rule is the filtered buffer: the rule has exactly one solution |
| FriendFilter.ProcessAlpha | docs/bokuno_friend.js:52-63 | the buffer becomes AlphaWritten of its old contents: slots i - 3 .. i replaced by AlphaRecoded of the old R, G and B, everything else unchanged |
| FriendFilter.CopyPixelFromLeft | docs/bokuno_friend.js:80-83 | the four slots from i become copies of the four before them; nothing else changes |
| FriendFilter.RecodeInPlace | docs/bokuno_friend.js:88-101 | slot i becomes the plain value when slot i + 4 and slot i + 4 * width are both within the threshold, else the clamped edge formula; nothing else changes |
| FriendFilter.SlotTests | docs/bokuno_friend.js:72-78 | the loop's three index tests pick exactly the alpha slot, the rows above the last, and the R slot of a last-column pixel |
| FriendFilter.FilteringFriend | docs/bokuno_friend.js:46-120 | the buffer ends as FriendFiltered of its old contents, for the plain value, threshold and edge alpha of the transparency |
| FriendProperties.OutPixelGray | docs/bokuno_friend.js:46-120 | every output pixel has R = G = B, and is either transparent with the plain value or has the edge alpha |
| FriendProperties.FriendPixelGray | docs/bokuno_friend.js:52-63 | the same for every pixel of the filtered buffer |
| FriendProperties.LastColumnCopiesLeft | docs/bokuno_friend.js:78-84 | in the rows above the last, the last pixel of a row ends as an exact copy of its left neighbour's final RGBA |
| FriendProperties.RuleUpperGray | docs/bokuno_friend.js:52-63 | in any buffer obeying the loop's rule, the pixels of the rows above the last are gray |
| FriendProperties.RuleLastRowFromAbove | docs/bokuno_friend.js:107-117 | in any buffer obeying the rule, a last-row pixel copies the R, G and B of the pixel above; its alpha is 0 if that colour is plain and the edge alpha otherwise |
| FriendProperties.LastRowCopiesAbove | docs/bokuno_friend.js:107-117 | the same for the filtered buffer |
| FriendProperties.InteriorLocal | docs/bokuno_friend.js:88-100 | an interior pixel's output depends only on its own R, G and B slots, their right neighbours and the slots below |
| FriendProperties.AlphaIgnored | docs/bokuno_friend.js:46-120 | two inputs that differ only in their alpha slots filter to the same buffer |
| FriendProperties.UniformBecomesTransparent | docs/bokuno_friend.js:88-93 | with a non-negative threshold, an image of one colour becomes the plain value with alpha 0 everywhere |
| FriendProperties.Coordinates | docs/bokuno_friend.js:72-78 | pixel (x, y) of a w x h image is in the last column exactly when x = w - 1, and in the last row exactly when y = h - 1 |
| Placement.PositionRange | docs/bokuno_friend.js:334-349 | a position x is inside a slider's range exactly when cfgMin <= x + friendExtent and x <= backgroundExtent |
| Placement.RangeKeepsContact | docs/bokuno_friend.js:338-340 | with a configured minimum of 0, a position is in range exactly when the friend's span still meets the background's span |
| Placement.FilteringRanges | docs/bokuno_friend.js:329-350 | the ranges are set only when both images are specified, from the configured minima and the off-screen canvas sizes |
| Placement.AlignTarget | docs/bokuno_friend.js:1071-1100 | left and top snap to 0 on their own slider; right and bottom make position + unscaled friend extent equal the background extent |
| Placement.SnapNegative | docs/bokuno_friend.js:1079-1100 | a right or bottom snap is negative exactly when the friend is larger than the background on that axis |
| Placement.AlignWithinRange | docs/bokuno_friend.js:1071-1100 | with non-negative sizes and a configured minimum at most 0, every alignment target lies inside the range its slider got after filtering |
| Placement.RangeAndSnapExample | docs/bokuno_friend.js:334-349 | an 800-wide background and a 200-wide friend give the slider range [-200, 800], and the right snap puts the friend at 600 |
| Composite.ParseInt | docs/bokuno_friend.js:436-447 | parseInt of a CSS length truncates toward zero: the result is within one below a non-negative length |
| Composite.FitZoom | docs/bokuno_friend.js:438-444 | the canvas zoom is in (0, 1], fits the surface into the view, and is 1 exactly when the surface is at most the view's width; otherwise it makes the surface exactly as wide as the view |
| Composite.CompositePlan | docs/bokuno_friend.js:396-486 | cleared exactly when neither image is specified; surface is the background's size, else the scaled friend's; one draw per specified image, background first at the origin at its natural size, friend last at the slider position and scaled, from the original thumbnail or the filtered canvas |
| Composite.FriendOverBackground | docs/bokuno_friend.js:454-472 | with both images there are exactly two draws, the background first and the friend over it |
| Composite.FriendAloneFillsSurface | docs/bokuno_friend.js:412-429 | without a background, a friend at the origin covers the surface exactly |
| Composite.CssWidth | docs/bokuno_friend.js:436-448 | the CSS width (parseInt of the fitted width, times the view zoom) lies between (fitted width - 1) and the fitted width, times the view zoom, where the fitted width is the surface width or the view width when the surface is not narrower |
| Composite.RightSnapFlushOnlyUnzoomed | docs/bokuno_friend.js:1079-1083 | after a right snap, the friend drawn at zoom times its width has its right edge on the background's exactly when the zoom is 1 or the friend has no width |
| DragSession.Round | docs/bokuno_friend.js:633-634 | Math.round returns the integer n with n - 1/2 <= x < n + 1/2 |
| DragSession.RoundUnique | docs/bokuno_friend.js:633-634 | that integer is unique |
| DragSession.RoundHalves | docs/bokuno_friend.js:633-634 | halves round up, also for negatives: 2.5 to 3, -2.5 to -2 |
| DragSession.DragPosition | docs/bokuno_friend.js:633-634 | the new position differs from the drag-start position by the pointer displacement divided by the zoom product, to within 1/2 |
| DragSession.DragByWholePixels | docs/bokuno_friend.js:632-634 | moving the pointer by k times the zoom product moves the friend by exactly k |
| DragSession.DragExample | docs/bokuno_friend.js:623-644 | from (50, 50), pointer (100, 100) to (130, 115) at zooms 0.5 and 2 gives (80, 65) |
| DragSession.AfterStart | docs/bokuno_friend.js:600-615 | with both images the drag goes active, recording the friend and pointer positions, the friend unmoved; otherwise nothing changes |
| DragSession.AfterMove | docs/bokuno_friend.js:623-644 | with both images during a drag only the friend position changes, to DragPosition from the drag start; otherwise nothing changes |
| DragSession.AfterUp | docs/bokuno_friend.js:894-904 | with both images the drag ends and nothing else changes; otherwise nothing changes |
| DragSession.AfterLeave | docs/bokuno_friend.js:925-947 | with both images during a drag the drag ends and the friend returns to the drag-start position; otherwise nothing changes |
| DragSession.WithoutBothImagesInert | docs/bokuno_friend.js:600-644 | without both images, no sequence of pointer events changes anything |
| DragSession.MovesFollowLast | docs/bokuno_friend.js:623-644 | during a drag, any moves keep it active and its start unchanged, and the friend sits where the last move put it, independent of earlier moves |
| DragSession.DragThenRelease | docs/bokuno_friend.js:894-904 | down, moves, up: the drag ends with the friend at the last move's position |
| DragSession.DragThenLeave | docs/bokuno_friend.js:925-947 | down, any moves, leaving the canvas: the drag ends with the friend back where it was |
| DragSession.IdleIgnoresMovesAndLeave | docs/bokuno_friend.js:629-631 | outside a drag, moves and leaving the canvas change nothing |
| DragSession.DragSession.Start | docs/bokuno_friend.js:600-615 | the object's new state is AfterStart of its old state |
| DragSession.DragSession.Move | docs/bokuno_friend.js:623-644 | the object's new state is AfterMove of its old state, with the product of the two zooms |
| DragSession.DragSession.Up | docs/bokuno_friend.js:894-904 | the object's new state is AfterUp of its old state |
| DragSession.DragSession.Leave | docs/bokuno_friend.js:925-947 | the object's new state is AfterLeave of its old state |
| Layout.NextLayout | docs/bokuno_friend.js:1017-1039 | the result is type01 exactly when the stored value is none of type01, type02 and type03; otherwise it is one step further in the cycle than the stored layout |
| Layout.SwitchAdvances | docs/bokuno_friend.js:1022-1039 | from any recorded layout the switch moves one step around the cycle of four |
| Layout.SwitchTimesIndex | docs/bokuno_friend.js:1017-1039 | k presses advance k steps modulo 4 |
| Layout.CycleOfFour | docs/bokuno_friend.js:1017-1039 | k presses bring a layout back exactly when k is a multiple of 4 |
| Layout.UnknownFallsBack | docs/bokuno_friend.js:1035-1038 | a stored value that names no layout switches to type01 |

## Left out

- Decoding image files, drag-and-drop input, share buttons, cookies and the
  enabling or disabling of controls are not modelled. The page's wiring to
  them is not modelled either.
- The canvas itself is not modelled. `drawImage`, `putImageData` and
  `clearRect` are not modelled, nor the alpha blending of the friend over
  the background or clipping at the surface's edges. `Composite.CompositePlan`
  describes which calls are made, with what geometry, and in what order.
- Numbers are exact reals (transparency, zooms, pointer coordinates) and
  unbounded integers. IEEE double rounding, NaN and infinities are not
  modelled. A division by a zero zoom is excluded instead:
  - `Composite.FitZoom` requires a view width above 0.
  - `DragSession.AfterMove` requires a non-zero zoom product during a drag.
- FriendFilter.FilteringFriend: requires an image at least 2 x 2, because
  the code has no guard for thinner images and its index arithmetic needs
  a left neighbour and a row below.
- FriendFilter.FilteringFriend: the transparency slider, which the code
  reads again at every alpha slot, is read once. The edge alpha is
  precomputed as `EdgeAlpha(transparency)` in `Params`. The three loop
  branches are factored into helper methods with the same writes.
- DragSession.AfterMove: the browser's clamping of a range input's value to
  its min, max and step when the drag writes it is not modelled. The
  position is the value written. The same holds for the alignment buttons.
- DragSession.Context: the canvas zoom and view zoom stay fixed over a run
  of events. In the page every move recomposites and re-records the canvas
  zoom from the view width, so a window resize or device rotation in the
  middle of a drag, or a changed image or slider, changes the zoom; the
  model does not follow such a change.
- Composite.CompositePlan: the view width is the canvas's own computed CSS
  width after its inline width is cleared, which the page's style sheet
  decides; the model takes it as the parameter `viewWidth`.
- Composite.CompositePlan: the canvas's integer width and height
  attributes are not modelled. The surface size is the product of the
  friend's size and the zoom.
