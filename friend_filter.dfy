/**
 * filteringFriend: the one-pass pseudo edge filter applied in place to the
 * friend (subject) image.  Each R, G and B slot of a pixel that is not in
 * the last row or last column is compared with the same slot of its right
 * neighbour and of the pixel below, both not yet visited; it becomes the
 * plain value when both are close, and is recoded as an edge otherwise.
 * Once R, G and B of a pixel are settled, processAlpha makes the pixel
 * transparent when all three are plain and grays it with the edge alpha
 * otherwise.  Last-column pixels copy their left neighbour, last-row
 * pixels copy the pixel above.
 */
module FriendFilter {
  import opened Uint8Clamp
  import opened GrayScale
  import opened PixelIndex

  /**
   * The filter's parameters: the plain value and the approximation
   * threshold, and the alpha given to edge pixels, which is
   * EdgeAlpha(transparency) for the transparency slider's value.
   */
  datatype Params = Params(plain: Byte, approximate: int, edgeAlpha: Byte)

  /** The parameters for a given plain value, threshold and transparency (percent). */
  function FilterParams(plain: Byte, approximate: int, transparency: real): (prm: Params)
    ensures prm.plain == plain && prm.approximate == approximate && prm.edgeAlpha == EdgeAlpha(transparency)
  {
    Params(plain, approximate, EdgeAlpha(transparency))
  }

  /** The four slots of one pixel. */
  datatype Rgba = Rgba(r: Byte, g: Byte, b: Byte, a: Byte) {
    function Channel(c: nat): Byte
      requires c < 4
    {
      if c == 0 then r else if c == 1 then g else if c == 2 then b else a
    }
  }

  /** An RGBA buffer of a w x h image; the filter is only given images at least 2 x 2. */
  predicate Shape(s: seq<Byte>, w: nat, h: nat) {
    w >= 2 && h >= 2 && |s| == 4 * (w * h)
  }

  /** What the filter's index arithmetic relies on: whole pixels, at least two rows of width w >= 2. */
  predicate Rows(s: seq<Byte>, w: nat) {
    w >= 2 && |s| % 4 == 0 && |s| >= 8 * w
  }

  lemma ShapeHasRows(s: seq<Byte>, w: nat, h: nat)
    requires Shape(s, w, h)
    ensures Rows(s, w)
  {
    TwoRows(w, h);
    var m := w * h;
    assert |s| == 4 * m;
  }

  function Abs(v: int): nat {
    if v < 0 then -v else v
  }

  /**
   * The new value of one R, G or B slot holding c, whose right neighbour
   * holds `right` and whose lower neighbour holds `below`.
   */
  function Recode(c: Byte, right: Byte, below: Byte, prm: Params): Byte {
    if Abs(right as int - c as int) <= prm.approximate && Abs(below as int - c as int) <= prm.approximate
    then prm.plain
    else ClampByte(prm.plain as int + 2 * c as int - right as int - below as int)
  }

  /** What processAlpha makes of a pixel whose R, G and B are settled. */
  function AlphaRecoded(r: Byte, g: Byte, b: Byte, prm: Params): (p: Rgba)
    ensures p.r == p.g == p.b
    ensures (p.a == 0 && p.r == prm.plain) || p.a == prm.edgeAlpha
    ensures r == g == b ==> p.r == r
  {
    if r == prm.plain && g == prm.plain && b == prm.plain then Rgba(r, g, b, 0)
    else
      var v := GrayAverage(r, g, b);
      Rgba(v, v, v, prm.edgeAlpha)
  }

  /** True when pixel p of the image lies in its last row. */
  predicate InLastRow(s: seq<Byte>, w: nat, p: nat) {
    4 * p >= |s| - 4 * w
  }

  /**
   * Slot c (R, G or B) of pixel p recoded against its right neighbour
   * (slot + 4) and the pixel below (slot + 4 * w), all read from the input.
   */
  function RecodedSlot(s: seq<Byte>, w: nat, prm: Params, p: nat, c: nat): Byte
    requires Rows(s, w) && !InLastRow(s, w, p) && c < 3
  {
    Recode(s[4 * p + c], s[4 * p + c + 4], s[4 * p + c + 4 * w], prm)
  }

  /** A pixel with a right neighbour and a pixel below: its three channels recoded, then processAlpha. */
  function InteriorPixel(s: seq<Byte>, w: nat, prm: Params, p: nat): Rgba
    requires Rows(s, w) && !InLastRow(s, w, p)
  {
    AlphaRecoded(RecodedSlot(s, w, prm, p, 0), RecodedSlot(s, w, prm, p, 1),
                 RecodedSlot(s, w, prm, p, 2), prm)
  }

  /**
   * Pixel p of the filtered image.  In an upper row a last-column pixel is
   * a copy of its left neighbour's final value and any other pixel is
   * recoded from the input; in the last row a pixel is processAlpha of the
   * final R, G and B of the pixel above.
   */
  function OutPixel(s: seq<Byte>, w: nat, prm: Params, p: nat): Rgba
    requires Rows(s, w) && 4 * p < |s|
    decreases p
  {
    if !InLastRow(s, w, p) then
      if LastColumn(w, p) then
        LastColumnHasLeft(w, p);
        OutPixel(s, w, prm, p - 1)
      else InteriorPixel(s, w, prm, p)
    else
      var above := OutPixel(s, w, prm, p - w);
      AlphaRecoded(above.r, above.g, above.b, prm)
  }

  /** Slot j of the filtered buffer: channel j % 4 of pixel j / 4. */
  function FilteredSlot(s: seq<Byte>, w: nat, prm: Params, j: nat): Byte
    requires Rows(s, w) && j < |s|
  {
    OutPixel(s, w, prm, j / 4).Channel(j % 4)
  }

  /** The whole buffer filteringFriend leaves behind. */
  function FriendFiltered(s: seq<Byte>, w: nat, prm: Params): (r: seq<Byte>)
    requires Rows(s, w)
    ensures |r| == |s|
  {
    seq(|s|, j requires 0 <= j < |s| => FilteredSlot(s, w, prm, j))
  }

  /** The four slots of pixel p of t hold OutPixel p. */
  ghost predicate FinalAt(t: seq<Byte>, s: seq<Byte>, w: nat, prm: Params, p: nat)
    requires Rows(s, w) && |t| == |s| && 4 * p < |s|
  {
    var px := OutPixel(s, w, prm, p);
    t[4 * p] == px.r && t[4 * p + 1] == px.g && t[4 * p + 2] == px.b && t[4 * p + 3] == px.a
  }

  /** t is the filtered buffer, pixel by pixel. */
  ghost predicate Final(t: seq<Byte>, s: seq<Byte>, w: nat, prm: Params)
    requires Rows(s, w)
  {
    |t| == |s| && forall p: nat :: 4 * p < |s| ==> FinalAt(t, s, w, prm, p)
  }

  /** Slot 4 * p + c is channel c of pixel p. */
  lemma SlotOfPixel(s: seq<Byte>, w: nat, prm: Params, p: nat, c: nat)
    requires Rows(s, w) && 4 * p < |s| && c < 4
    ensures FilteredSlot(s, w, prm, 4 * p + c) == OutPixel(s, w, prm, p).Channel(c)
  {
    assert (4 * p + c) / 4 == p && (4 * p + c) % 4 == c;
  }

  /** Slot j of the filtered buffer. */
  lemma FilteredAt(s: seq<Byte>, w: nat, prm: Params, j: nat)
    requires Rows(s, w) && j < |s|
    ensures FriendFiltered(s, w, prm)[j] == FilteredSlot(s, w, prm, j)
  {
  }

  /** Slot c of pixel p of the filtered buffer is channel c of OutPixel p. */
  lemma FilteredChannel(s: seq<Byte>, w: nat, prm: Params, p: nat, c: nat)
    requires Rows(s, w) && 4 * p < |s| && c < 4
    ensures FriendFiltered(s, w, prm)[4 * p + c] == OutPixel(s, w, prm, p).Channel(c)
  {
    PixelFits(|s|, p);
    FilteredAt(s, w, prm, 4 * p + c);
    SlotOfPixel(s, w, prm, p, c);
  }

  /** The four slots from q = 4 * p of the filtered buffer are OutPixel p. */
  lemma FilteredPixel(s: seq<Byte>, w: nat, prm: Params, p: nat, q: nat)
    requires Rows(s, w) && 4 * p < |s| && q == 4 * p
    ensures q + 3 < |s|
    ensures var r := FriendFiltered(s, w, prm); var px := OutPixel(s, w, prm, p);
      r[q] == px.r && r[q + 1] == px.g && r[q + 2] == px.b && r[q + 3] == px.a
  {
    PixelFits(|s|, p);
    FilteredChannel(s, w, prm, p, 0);
    FilteredChannel(s, w, prm, p, 1);
    FilteredChannel(s, w, prm, p, 2);
    FilteredChannel(s, w, prm, p, 3);
  }

  lemma FilteredIsFinal(s: seq<Byte>, w: nat, prm: Params)
    requires Rows(s, w)
    ensures Final(FriendFiltered(s, w, prm), s, w, prm)
  {
    forall p: nat | 4 * p < |s|
      ensures FinalAt(FriendFiltered(s, w, prm), s, w, prm, p)
    {
      FilteredChannel(s, w, prm, p, 0);
      FilteredChannel(s, w, prm, p, 1);
      FilteredChannel(s, w, prm, p, 2);
      FilteredChannel(s, w, prm, p, 3);
    }
  }

  /** The pixel-by-pixel description determines the buffer. */
  lemma FinalIsFiltered(t: seq<Byte>, s: seq<Byte>, w: nat, prm: Params)
    requires Rows(s, w) && Final(t, s, w, prm)
    ensures t == FriendFiltered(s, w, prm)
  {
    forall j | 0 <= j < |s|
      ensures t[j] == FriendFiltered(s, w, prm)[j]
    {
      var p, c := j / 4, j % 4;
      assert j == 4 * p + c;
      assert FinalAt(t, s, w, prm, p);
    }
  }

  /**
   * The value the loop has written into R, G or B slot j of an output t
   * just before processAlpha reaches its pixel: recoded from the input in
   * an upper row, the slot one row up of t in the last row.
   */
  function SettledValue(s: seq<Byte>, t: seq<Byte>, w: nat, prm: Params, j: nat): Byte
    requires Rows(s, w) && |t| == |s| && j < |s|
  {
    if j < |s| - 4 * w then Recode(s[j], s[j + 4], s[j + 4 * w], prm) else t[j - 4 * w]
  }

  /**
   * The filter's rule for pixel p of the output t, stated on the buffers: a
   * last-column pixel of an upper row repeats the four slots before it;
   * every other pixel is processAlpha of its settled R, G and B.
   */
  ghost predicate PixelRule(s: seq<Byte>, t: seq<Byte>, w: nat, prm: Params, p: nat)
    requires Rows(s, w) && |t| == |s| && 4 * p < |s|
  {
    if !InLastRow(s, w, p) && LastColumn(w, p) then
      p >= 1 && t[4 * p] == t[4 * p - 4] && t[4 * p + 1] == t[4 * p - 3]
        && t[4 * p + 2] == t[4 * p - 2] && t[4 * p + 3] == t[4 * p - 1]
    else
      Rgba(t[4 * p], t[4 * p + 1], t[4 * p + 2], t[4 * p + 3])
        == AlphaRecoded(SettledValue(s, t, w, prm, 4 * p), SettledValue(s, t, w, prm, 4 * p + 1),
                        SettledValue(s, t, w, prm, 4 * p + 2), prm)
  }

  /** The rule for every pixel. */
  ghost predicate FilterRule(s: seq<Byte>, t: seq<Byte>, w: nat, prm: Params)
    requires Rows(s, w)
  {
    |t| == |s| && forall p: nat :: 4 * p < |s| ==> PixelRule(s, t, w, prm, p)
  }

  /** The filtered buffer obeys the rule. */
  lemma FilteredObeysRule(s: seq<Byte>, w: nat, prm: Params)
    requires Rows(s, w)
    ensures FilterRule(s, FriendFiltered(s, w, prm), w, prm)
  {
    var t := FriendFiltered(s, w, prm);
    FilteredIsFinal(s, w, prm);
    forall p: nat | 4 * p < |s|
      ensures PixelRule(s, t, w, prm, p)
    {
      FinalObeysRule(s, t, w, prm, p);
    }
  }

  lemma FinalObeysRule(s: seq<Byte>, t: seq<Byte>, w: nat, prm: Params, p: nat)
    requires Rows(s, w) && Final(t, s, w, prm) && 4 * p < |s|
    ensures PixelRule(s, t, w, prm, p)
  {
    assert FinalAt(t, s, w, prm, p);
    if InLastRow(s, w, p) {
      assert FinalAt(t, s, w, prm, p - w);
      FinalObeysRuleLastRow(s, t, w, prm, p);
    } else if LastColumn(w, p) {
      LastColumnHasLeft(w, p);
      assert FinalAt(t, s, w, prm, p - 1);
      FinalObeysRuleLastColumn(s, t, w, prm, p);
    } else {
      FinalObeysRuleInterior(s, t, w, prm, p);
    }
  }

  lemma FinalObeysRuleLastRow(s: seq<Byte>, t: seq<Byte>, w: nat, prm: Params, p: nat)
    requires Rows(s, w) && |t| == |s| && 4 * p < |s| && InLastRow(s, w, p) && p >= w
    requires FinalAt(t, s, w, prm, p) && FinalAt(t, s, w, prm, p - w)
    ensures PixelRule(s, t, w, prm, p)
  {
    assert 4 * (p - w) + 1 == 4 * p + 1 - 4 * w && 4 * (p - w) + 2 == 4 * p + 2 - 4 * w;
  }

  lemma FinalObeysRuleLastColumn(s: seq<Byte>, t: seq<Byte>, w: nat, prm: Params, p: nat)
    requires Rows(s, w) && |t| == |s| && 4 * p < |s| && !InLastRow(s, w, p) && LastColumn(w, p) && p >= 1
    requires FinalAt(t, s, w, prm, p) && FinalAt(t, s, w, prm, p - 1)
    ensures PixelRule(s, t, w, prm, p)
  {
  }

  lemma FinalObeysRuleInterior(s: seq<Byte>, t: seq<Byte>, w: nat, prm: Params, p: nat)
    requires Rows(s, w) && |t| == |s| && 4 * p < |s| && !InLastRow(s, w, p) && !LastColumn(w, p)
    requires FinalAt(t, s, w, prm, p)
    ensures PixelRule(s, t, w, prm, p)
  {
  }

  /** The rule settles an interior pixel of an upper row from the input alone. */
  lemma RuleInterior(s: seq<Byte>, t: seq<Byte>, w: nat, prm: Params, p: nat)
    requires Rows(s, w) && |t| == |s| && 4 * p < |s|
    requires !InLastRow(s, w, p) && !LastColumn(w, p) && PixelRule(s, t, w, prm, p)
    ensures FinalAt(t, s, w, prm, p)
  {
  }

  /** The rule settles a last-column pixel of an upper row once its left neighbour is settled. */
  lemma RuleLastColumn(s: seq<Byte>, t: seq<Byte>, w: nat, prm: Params, p: nat)
    requires Rows(s, w) && |t| == |s| && 4 * p < |s| && p >= 1
    requires !InLastRow(s, w, p) && LastColumn(w, p) && !LastColumn(w, p - 1)
    requires PixelRule(s, t, w, prm, p) && FinalAt(t, s, w, prm, p - 1)
    ensures FinalAt(t, s, w, prm, p)
  {
  }

  /** The rule settles a last-row pixel once the pixel above it is settled. */
  lemma RuleLastRow(s: seq<Byte>, t: seq<Byte>, w: nat, prm: Params, p: nat)
    requires Rows(s, w) && |t| == |s| && 4 * p < |s| && p >= w
    requires InLastRow(s, w, p) && PixelRule(s, t, w, prm, p) && FinalAt(t, s, w, prm, p - w)
    ensures FinalAt(t, s, w, prm, p)
  {
    assert 4 * (p - w) + 1 == 4 * p + 1 - 4 * w && 4 * (p - w) + 2 == 4 * p + 2 - 4 * w;
  }

  /** A buffer obeying the rule agrees with the filtered buffer on pixel p. */
  lemma {:induction false} RuleDeterminesPixel(s: seq<Byte>, t: seq<Byte>, w: nat, prm: Params, p: nat)
    requires Rows(s, w) && FilterRule(s, t, w, prm) && 4 * p < |s|
    ensures FinalAt(t, s, w, prm, p)
    decreases p
  {
    assert PixelRule(s, t, w, prm, p);
    if InLastRow(s, w, p) {
      RuleDeterminesPixel(s, t, w, prm, p - w);
      RuleLastRow(s, t, w, prm, p);
    } else if LastColumn(w, p) {
      LastColumnHasLeft(w, p);
      RuleDeterminesPixel(s, t, w, prm, p - 1);
      RuleLastColumn(s, t, w, prm, p);
    } else {
      RuleInterior(s, t, w, prm, p);
    }
  }

  /** The rule has exactly one solution: the filtered buffer. */
  lemma RuleDetermines(s: seq<Byte>, t: seq<Byte>, w: nat, prm: Params)
    requires Rows(s, w) && FilterRule(s, t, w, prm)
    ensures t == FriendFiltered(s, w, prm)
  {
    forall p: nat | 4 * p < |s|
      ensures FinalAt(t, s, w, prm, p)
    {
      RuleDeterminesPixel(s, t, w, prm, p);
    }
    FinalIsFiltered(t, s, w, prm);
  }

  /** The buffer a after processAlpha on the pixel whose alpha slot is i. */
  function AlphaWritten(a: seq<Byte>, i: nat, prm: Params): seq<Byte>
    requires 3 <= i < |a|
  {
    var px := AlphaRecoded(a[i - 3], a[i - 2], a[i - 1], prm);
    a[i - 3 := px.r][i - 2 := px.g][i - 1 := px.b][i := px.a]
  }

  /** processAlpha on the pixel whose alpha slot is i. */
  method ProcessAlpha(data: array<Byte>, i: nat, prm: Params, transparency: real)
    requires 3 <= i < data.Length && prm.edgeAlpha == EdgeAlpha(transparency)
    modifies data
    ensures data[..] == AlphaWritten(old(data[..]), i, prm)
  {
    ghost var a := data[..];
    if data[i - 3] == prm.plain && data[i - 2] == prm.plain && data[i - 1] == prm.plain {
      data[i] := 0;
    } else {
      ProcessGrayScale(data, i - 3, i - 2, i - 1);
      data[i] := ToUint8Clamp(255.0 - 255.0 * transparency / 100.0);
    }
    ghost var px := AlphaRecoded(a[i - 3], a[i - 2], a[i - 1], prm);
    assert data[..] == a[i - 3 := px.r][i - 2 := px.g][i - 1 := px.b][i := px.a];
  }

  /** The last-column branch of the loop: the four slots from i become a copy of the four before them. */
  method CopyPixelFromLeft(data: array<Byte>, i: nat)
    requires 4 <= i && i + 3 < data.Length
    modifies data
    ensures var a := old(data[..]);
      data[..] == a[i := a[i - 4]][i + 1 := a[i - 3]][i + 2 := a[i - 2]][i + 3 := a[i - 1]]
  {
    ghost var a := data[..];
    data[i] := data[i - 4];
    data[i + 1] := data[i - 3];
    data[i + 2] := data[i - 2];
    data[i + 3] := data[i - 1];
    assert data[..] == a[i := a[i - 4]][i + 1 := a[i - 3]][i + 2 := a[i - 2]][i + 3 := a[i - 1]];
  }

  /** The recoding branch of the loop: slot i against slot i + 4 and slot i + 4 * width. */
  method RecodeInPlace(data: array<Byte>, i: nat, width: nat, prm: Params)
    requires i + 4 * width < data.Length && i + 4 < data.Length
    modifies data
    ensures var a := old(data[..]);
      data[..] == a[i := Recode(a[i], a[i + 4], a[i + 4 * width], prm)]
  {
    var diff1 := Abs(data[i + 4] as int - data[i] as int);
    var diff2 := Abs(data[i + width * 4] as int - data[i] as int);
    if diff1 <= prm.approximate && diff2 <= prm.approximate {
      data[i] := prm.plain;
    } else {
      StoreInteger(prm.plain as int + 2 * data[i] as int - data[i + 4] as int - data[i + width * 4] as int);
      data[i] := ToUint8Clamp((prm.plain as int + 2 * data[i] as int
                               - data[i + 4] as int - data[i + width * 4] as int) as real);
    }
  }

  /**
   * The loop's invariant with i = 4 * p + c, against an output t obeying
   * the rule: pixels before p are final, the first c slots of pixel p are
   * settled, and nothing from slot i on has been written.  A pixel whose G
   * or B is reached is not the last-column pixel of an upper row, since
   * those are copied in one go from their R.
   */
  ghost predicate Progress(a: seq<Byte>, s: seq<Byte>, t: seq<Byte>, w: nat, prm: Params, p: nat, c: nat)
    requires Rows(s, w)
  {
    && |a| == |s| && |t| == |s| && c < 4 && 4 * p + c <= |s|
    && (forall j :: 0 <= j < 4 * p ==> a[j] == t[j])
    && (forall j :: 4 * p <= j < 4 * p + c ==> a[j] == SettledValue(s, t, w, prm, j))
    && (forall j :: 4 * p + c <= j < |s| ==> a[j] == s[j])
    && (c != 0 && !InLastRow(s, w, p) ==> !LastColumn(w, p))
  }

  /** The last-column copy at slot i = 4 * p finishes pixel p. */
  lemma StepCopyLeft(a: seq<Byte>, b: seq<Byte>, s: seq<Byte>, t: seq<Byte>, w: nat, prm: Params, p: nat, i: nat)
    requires Rows(s, w) && Progress(a, s, t, w, prm, p, 0) && i == 4 * p && 4 * p < |s|
    requires !InLastRow(s, w, p) && LastColumn(w, p) && FilterRule(s, t, w, prm)
    requires b == a[i := a[i - 4]][i + 1 := a[i - 3]][i + 2 := a[i - 2]][i + 3 := a[i - 1]]
    ensures Progress(b, s, t, w, prm, p + 1, 0)
  {
    assert PixelRule(s, t, w, prm, p);
  }

  /** Recoding slot i = 4 * p + c of an upper row settles it. */
  lemma StepRecode(a: seq<Byte>, b: seq<Byte>, s: seq<Byte>, t: seq<Byte>, w: nat, prm: Params, p: nat, c: nat, i: nat)
    requires Rows(s, w) && Progress(a, s, t, w, prm, p, c) && i == 4 * p + c && c < 3
    requires 4 * p < |s| && !InLastRow(s, w, p) && !(c == 0 && LastColumn(w, p))
    requires b == a[i := Recode(a[i], a[i + 4], a[i + 4 * w], prm)]
    ensures Progress(b, s, t, w, prm, p, c + 1)
  {
  }

  /** Copying slot i = 4 * p + c of the last row from the row above settles it. */
  lemma StepCopyAbove(a: seq<Byte>, b: seq<Byte>, s: seq<Byte>, t: seq<Byte>, w: nat, prm: Params, p: nat, c: nat, i: nat)
    requires Rows(s, w) && Progress(a, s, t, w, prm, p, c) && i == 4 * p + c && c < 3
    requires 4 * p < |s| && InLastRow(s, w, p)
    requires b == a[i := a[i - 4 * w]]
    ensures Progress(b, s, t, w, prm, p, c + 1)
  {
  }

  /** processAlpha at the alpha slot i = 4 * p + 3 finishes pixel p. */
  lemma StepAlpha(a: seq<Byte>, b: seq<Byte>, s: seq<Byte>, t: seq<Byte>, w: nat, prm: Params, p: nat, i: nat)
    requires Rows(s, w) && Progress(a, s, t, w, prm, p, 3) && i == 4 * p + 3 && FilterRule(s, t, w, prm)
    requires 4 * p + 3 < |a| && b == AlphaWritten(a, i, prm)
    ensures Progress(b, s, t, w, prm, p + 1, 0)
  {
    assert PixelRule(s, t, w, prm, p);
  }

  lemma ProgressDone(a: seq<Byte>, s: seq<Byte>, t: seq<Byte>, w: nat, prm: Params, p: nat)
    requires Rows(s, w) && Progress(a, s, t, w, prm, p, 0) && 4 * p == |s|
    ensures a == t
  {
  }

  /**
   * What the loop's tests on i = 4 * p + c mean: (i + 1) % 4 == 0 picks the
   * alpha slot, i < |s| - 4 * w an upper row.
   */
  lemma SlotTests(s: seq<Byte>, w: nat, p: nat, c: nat, i: nat, n: nat)
    requires Rows(s, w) && c < 4 && i == 4 * p + c && i < n && n == |s|
    ensures (i + 1) % 4 == 0 <==> c == 3
    ensures i < n - w * 4 <==> !InLastRow(s, w, p)
    ensures c < 3 ==> i + 1 < n && ((i + 4) % (w * 4) == 0 <==> c == 0 && LastColumn(w, p))
  {
    var m := |s| / 4;
    assert |s| == 4 * m;
    assert 4 * p + c + 1 == 4 * p + (c + 1);
    if c == 3 {
      assert 4 * p + c + 1 == 4 * (p + 1);
    } else {
      LastColumnTest(w, p, c);
    }
  }

  /** filteringFriend: one left-to-right pass over every slot, skipping ahead after a last-column copy. */
  method FilteringFriend(data: array<Byte>, width: nat, height: nat, plain: Byte, approximate: int, transparency: real)
    requires Shape(data[..], width, height)
    modifies data
    ensures data[..] == FriendFiltered(old(data[..]), width, FilterParams(plain, approximate, transparency))
  {
    var prm := FilterParams(plain, approximate, transparency);
    ghost var s := data[..];
    ShapeHasRows(s, width, height);
    FilteredObeysRule(s, width, prm);
    ghost var t: seq<Byte> :| FilterRule(s, t, width, prm);
    assert FilterRule(s, t, width, prm);
    var n := data.Length;
    var i := 0;
    ghost var p, c := 0, 0;
    while i < n
      invariant i == 4 * p + c && (i == n ==> c == 0)
      invariant Progress(data[..], s, t, width, prm, p, c)
    {
      ghost var a: seq<Byte> := data[..];
      SlotTests(s, width, p, c, i, n);
      if i < n - width * 4 {
        if (i + 1) % 4 != 0 {
          if (i + 4) % (width * 4) == 0 {
            CopyPixelFromLeft(data, i);
            StepCopyLeft(a, data[..], s, t, width, prm, p, i);
            i := i + 3;
            p, c := p + 1, 0;
          } else {
            RecodeInPlace(data, i, width, prm);
            StepRecode(a, data[..], s, t, width, prm, p, c, i);
            c := c + 1;
          }
        } else {
          ProcessAlpha(data, i, prm, transparency);
          StepAlpha(a, data[..], s, t, width, prm, p, i);
          p, c := p + 1, 0;
        }
        i := i + 1;
      } else {
        if (i + 1) % 4 != 0 {
          data[i] := data[i - width * 4];
          StepCopyAbove(a, data[..], s, t, width, prm, p, c, i);
          c := c + 1;
        } else {
          ProcessAlpha(data, i, prm, transparency);
          StepAlpha(a, data[..], s, t, width, prm, p, i);
          p, c := p + 1, 0;
        }
        i := i + 1;
      }
    }
    ProgressDone(data[..], s, t, width, prm, p);
    RuleDetermines(s, t, width, prm);
  }
}
