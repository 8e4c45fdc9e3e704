/**
 * What filteringFriend promises about the image it leaves behind, stated on
 * the filtered buffer FriendFiltered that the method is proved to produce.
 */
module FriendProperties {
  import opened Uint8Clamp
  import opened PixelIndex
  import opened FriendFilter

  /** Every output pixel is processAlpha's result on some R, G and B. */
  lemma {:induction false} OutPixelGray(s: seq<Byte>, w: nat, prm: Params, p: nat)
    requires Rows(s, w) && 4 * p < |s|
    ensures var px := OutPixel(s, w, prm, p);
      px.r == px.g == px.b && ((px.a == 0 && px.r == prm.plain) || px.a == prm.edgeAlpha)
    decreases p
  {
    if !InLastRow(s, w, p) && LastColumn(w, p) {
      LastColumnHasLeft(w, p);
      OutPixelGray(s, w, prm, p - 1);
    }
  }

  /**
   * Every pixel of the filtered friend image is gray, and it is either fully
   * transparent with the plain value in R, G and B, or has the edge alpha.
   */
  lemma FriendPixelGray(s: seq<Byte>, w: nat, prm: Params, p: nat)
    requires Rows(s, w) && 4 * p < |s|
    ensures 4 * p + 3 < |s|
    ensures var r := FriendFiltered(s, w, prm);
      && r[4 * p] == r[4 * p + 1] == r[4 * p + 2]
      && ((r[4 * p + 3] == 0 && r[4 * p] == prm.plain) || r[4 * p + 3] == prm.edgeAlpha)
  {
    FilteredPixel(s, w, prm, p, 4 * p);
    OutPixelGray(s, w, prm, p);
  }

  /**
   * The last-column pixel of an upper row ends as an exact copy of its
   * left neighbour's final RGBA.
   */
  lemma LastColumnCopiesLeft(s: seq<Byte>, w: nat, prm: Params, p: nat)
    requires Rows(s, w) && 4 * p < |s| && !InLastRow(s, w, p) && LastColumn(w, p)
    ensures p >= 1 && 4 * p + 3 < |s|
    ensures var r := FriendFiltered(s, w, prm);
      var q := 4 * p - 4;
      r[4 * p] == r[q] && r[4 * p + 1] == r[q + 1] && r[4 * p + 2] == r[q + 2] && r[4 * p + 3] == r[q + 3]
  {
    PixelFits(|s|, p);
    FilteredObeysRule(s, w, prm);
    assert PixelRule(s, FriendFiltered(s, w, prm), w, prm, p);
  }

  /** In a buffer obeying the filter's rule, pixels of upper rows are gray. */
  lemma RuleUpperGray(s: seq<Byte>, t: seq<Byte>, w: nat, prm: Params, p: nat)
    requires Rows(s, w) && FilterRule(s, t, w, prm) && 4 * p < |s| && !InLastRow(s, w, p)
    ensures 4 * p + 3 < |s|
    ensures t[4 * p] == t[4 * p + 1] == t[4 * p + 2]
  {
    PixelFits(|s|, p);
    RuleDetermines(s, t, w, prm);
    FriendPixelGray(s, w, prm, p);
  }

  /** The last-row part of the rule, once the pixel above is known to be gray. */
  lemma RuleLastRowFromAbove(s: seq<Byte>, t: seq<Byte>, w: nat, prm: Params, p: nat)
    requires Rows(s, w) && FilterRule(s, t, w, prm) && 4 * p < |s| && InLastRow(s, w, p)
    ensures p >= w && 4 * p + 3 < |s|
    ensures var q := 4 * (p - w);
      && t[4 * p] == t[q] && t[4 * p + 1] == t[q + 1] && t[4 * p + 2] == t[q + 2]
      && (t[q] == prm.plain ==> t[4 * p + 3] == 0)
      && (t[q] != prm.plain ==> t[4 * p + 3] == prm.edgeAlpha)
  {
    PixelFits(|s|, p);
    var q := 4 * (p - w);
    assert PixelRule(s, t, w, prm, p);
    assert 4 * p - 4 * w == q && 4 * p + 1 - 4 * w == q + 1 && 4 * p + 2 - 4 * w == q + 2;
    RuleUpperGray(s, t, w, prm, p - w);
    GrayAverageOfGray(t[q]);
  }

  /**
   * A last-row pixel ends with the final R, G and B of the pixel directly
   * above; its alpha is 0 when that colour is the plain value and the edge
   * alpha otherwise.
   */
  lemma LastRowCopiesAbove(s: seq<Byte>, w: nat, prm: Params, p: nat)
    requires Rows(s, w) && 4 * p < |s| && InLastRow(s, w, p)
    ensures p >= w && 4 * p + 3 < |s|
    ensures var r := FriendFiltered(s, w, prm);
      var q := 4 * (p - w);
      && r[4 * p] == r[q] && r[4 * p + 1] == r[q + 1] && r[4 * p + 2] == r[q + 2]
      && (r[q] == prm.plain ==> r[4 * p + 3] == 0)
      && (r[q] != prm.plain ==> r[4 * p + 3] == prm.edgeAlpha)
  {
    FilteredObeysRule(s, w, prm);
    RuleLastRowFromAbove(s, FriendFiltered(s, w, prm), w, prm, p);
  }

  /** Slot i, its right neighbour and the slot below hold the same values in s and u. */
  ghost predicate AgreeAround(s: seq<Byte>, u: seq<Byte>, w: nat, i: nat)
    requires i + 4 * w < |s| && i + 4 < |s| && |u| == |s|
  {
    s[i] == u[i] && s[i + 4] == u[i + 4] && s[i + 4 * w] == u[i + 4 * w]
  }

  /**
   * An interior pixel of an upper row depends on nothing but slots i, i + 4
   * and i + 4 * w of each of its R, G and B slots i: two inputs agreeing
   * there give it the same output.
   */
  lemma InteriorLocal(s: seq<Byte>, u: seq<Byte>, w: nat, prm: Params, p: nat)
    requires Rows(s, w) && |u| == |s| && 4 * p < |s| && !InLastRow(s, w, p) && !LastColumn(w, p)
    requires AgreeAround(s, u, w, 4 * p) && AgreeAround(s, u, w, 4 * p + 1) && AgreeAround(s, u, w, 4 * p + 2)
    ensures Rows(u, w) && !InLastRow(u, w, p)
    ensures OutPixel(s, w, prm, p) == OutPixel(u, w, prm, p)
  {
  }

  /** Channel c of pixel p. */
  function ColourSlot(s: seq<Byte>, p: nat, c: nat): Byte
    requires 4 * p + c < |s|
  {
    s[4 * p + c]
  }

  /** Two buffers with the same R, G and B in every pixel; their alphas may differ. */
  ghost predicate SameColours(s: seq<Byte>, u: seq<Byte>) {
    |s| == |u| && forall p: nat, c: nat :: c < 3 && 4 * p + c < |s| ==> ColourSlot(s, p, c) == ColourSlot(u, p, c)
  }

  /** Recoding slot c of pixel p of an upper row reads only R, G and B slots. */
  lemma RecodedSlotColours(s: seq<Byte>, u: seq<Byte>, w: nat, prm: Params, p: nat, c: nat)
    requires Rows(s, w) && SameColours(s, u) && !InLastRow(s, w, p) && c < 3
    ensures Rows(u, w) && !InLastRow(u, w, p)
    ensures RecodedSlot(s, w, prm, p, c) == RecodedSlot(u, w, prm, p, c)
  {
    assert ColourSlot(s, p, c) == ColourSlot(u, p, c);
    assert 4 * (p + 1) + c == 4 * p + c + 4;
    assert ColourSlot(s, p + 1, c) == ColourSlot(u, p + 1, c);
    assert 4 * (p + w) + c == 4 * p + c + 4 * w;
    assert ColourSlot(s, p + w, c) == ColourSlot(u, p + w, c);
  }

  lemma {:induction false} OutPixelColours(s: seq<Byte>, u: seq<Byte>, w: nat, prm: Params, p: nat)
    requires Rows(s, w) && SameColours(s, u) && 4 * p < |s|
    ensures Rows(u, w) && OutPixel(s, w, prm, p) == OutPixel(u, w, prm, p)
    decreases p
  {
    if !InLastRow(s, w, p) {
      if LastColumn(w, p) {
        LastColumnHasLeft(w, p);
        OutPixelColours(s, u, w, prm, p - 1);
      } else {
        InteriorColours(s, u, w, prm, p);
      }
    } else {
      OutPixelColours(s, u, w, prm, p - w);
    }
  }

  lemma InteriorColours(s: seq<Byte>, u: seq<Byte>, w: nat, prm: Params, p: nat)
    requires Rows(s, w) && SameColours(s, u) && !InLastRow(s, w, p)
    ensures Rows(u, w) && !InLastRow(u, w, p)
    ensures InteriorPixel(s, w, prm, p) == InteriorPixel(u, w, prm, p)
  {
    RecodedSlotColours(s, u, w, prm, p, 0);
    RecodedSlotColours(s, u, w, prm, p, 1);
    RecodedSlotColours(s, u, w, prm, p, 2);
  }

  /** The input alpha values never influence the filtered friend image. */
  lemma AlphaIgnored(s: seq<Byte>, u: seq<Byte>, w: nat, prm: Params)
    requires Rows(s, w) && SameColours(s, u)
    ensures Rows(u, w) && FriendFiltered(s, w, prm) == FriendFiltered(u, w, prm)
  {
    forall j | 0 <= j < |s|
      ensures FriendFiltered(s, w, prm)[j] == FriendFiltered(u, w, prm)[j]
    {
      var p, c := j / 4, j % 4;
      assert j == 4 * p + c;
      FilteredChannel(s, w, prm, p, c);
      FilteredChannel(u, w, prm, p, c);
      OutPixelColours(s, u, w, prm, p);
    }
  }

  /** Every pixel has the same colour: each R, G and B slot repeats the first pixel's. */
  ghost predicate Uniform(s: seq<Byte>) {
    forall j :: 0 <= j < |s| && j % 4 != 3 ==> s[j] == s[j % 4]
  }

  lemma UniformRecodesPlain(s: seq<Byte>, w: nat, prm: Params, p: nat, c: nat)
    requires Rows(s, w) && Uniform(s) && prm.approximate >= 0 && !InLastRow(s, w, p) && c < 3
    ensures RecodedSlot(s, w, prm, p, c) == prm.plain
  {
    assert (4 * p + c) % 4 == c;
    assert (4 * p + c + 4) % 4 == c;
    assert (4 * p + c + 4 * w) % 4 == c;
  }

  lemma {:induction false} UniformOutPixel(s: seq<Byte>, w: nat, prm: Params, p: nat)
    requires Rows(s, w) && Uniform(s) && prm.approximate >= 0 && 4 * p < |s|
    ensures OutPixel(s, w, prm, p) == Rgba(prm.plain, prm.plain, prm.plain, 0)
    decreases p
  {
    if !InLastRow(s, w, p) {
      if LastColumn(w, p) {
        LastColumnHasLeft(w, p);
        UniformOutPixel(s, w, prm, p - 1);
      } else {
        UniformRecodesPlain(s, w, prm, p, 0);
        UniformRecodesPlain(s, w, prm, p, 1);
        UniformRecodesPlain(s, w, prm, p, 2);
      }
    } else {
      UniformOutPixel(s, w, prm, p - w);
    }
  }

  /**
   * With a non-negative threshold, a friend image of one colour becomes
   * entirely the plain value with alpha 0: fully transparent.
   */
  lemma UniformBecomesTransparent(s: seq<Byte>, w: nat, prm: Params)
    requires Rows(s, w) && Uniform(s) && prm.approximate >= 0
    ensures forall j :: 0 <= j < |s| ==>
      FriendFiltered(s, w, prm)[j] == if j % 4 == 3 then 0 else prm.plain
  {
    forall j | 0 <= j < |s|
      ensures FriendFiltered(s, w, prm)[j] == if j % 4 == 3 then 0 else prm.plain
    {
      var p, c := j / 4, j % 4;
      assert j == 4 * p + c;
      FilteredChannel(s, w, prm, p, c);
      UniformOutPixel(s, w, prm, p);
    }
  }

  /**
   * Row-major coordinates of a w x h image: pixel (x, y) is p = y * w + x;
   * the filter's last-column test picks x = w - 1 and its last-row test
   * y = h - 1.
   */
  lemma Coordinates(s: seq<Byte>, w: nat, h: nat, x: nat, y: nat)
    requires Shape(s, w, h) && x < w && y < h
    ensures 4 * (y * w + x) < |s|
    ensures LastColumn(w, y * w + x) <==> x == w - 1
    ensures InLastRow(s, w, y * w + x) <==> y == h - 1
  {
    ColumnOfCoordinates(w, x, y);
    assert |s| == 4 * (w * h);
    assert y * w + x < (y + 1) * w;
    MulMonotone(y + 1, h, w);
    if y == h - 1 {
      assert y * w == h * w - w;
    } else {
      MulMonotone(y + 2, h, w);
      assert (y + 1) * w + w == (y + 2) * w;
    }
  }

  lemma MulMonotone(a: nat, b: nat, w: nat)
    requires a <= b
    ensures a * w <= b * w
  {
  }
}
