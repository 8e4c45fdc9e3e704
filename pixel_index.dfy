/**
 * Index arithmetic of the flat RGBA buffer: slot c of pixel p sits at
 * 4 * p + c, and the pixels of a w-wide image are laid out row by row.
 */
module PixelIndex {

  lemma MulAtLeast(a: int, m: int)
    requires a >= 1 && m > 0
    ensures a * m >= m
  {
  }

  /** Euclidean division has exactly one quotient and remainder. */
  lemma ModUnique(x: int, m: int, q: int, r: int)
    requires m > 0 && 0 <= r < m && x == q * m + r
    ensures x % m == r && x / m == q
  {
    var q0, r0 := x / m, x % m;
    assert (q - q0) * m == r0 - r;
    if q > q0 {
      MulAtLeast(q - q0, m);
      assert false;
    } else if q < q0 {
      MulAtLeast(q0 - q, m);
      assert false;
    }
  }

  /** An image of at least two rows holds at least two rows of pixels. */
  lemma TwoRows(w: nat, h: nat)
    requires h >= 2
    ensures w * h >= 2 * w
  {
  }

  /** Pixel p of a buffer of whole pixels has all four of its slots inside the buffer. */
  lemma PixelFits(n: nat, p: nat)
    requires n % 4 == 0 && 4 * p < n
    ensures 4 * p + 3 < n
  {
  }

  /** The column of pixel p in a w-wide image, counted row by row. */
  function Column(w: nat, p: nat): (x: nat)
    requires w > 0
    ensures x < w && x <= p
    decreases p
  {
    if p < w then p else Column(w, p - w)
  }

  /** The column is the remainder of the pixel index by the width. */
  lemma {:induction false} ColumnIsRemainder(w: nat, p: nat)
    requires w > 0
    ensures Column(w, p) == p % w
  {
    if p < w {
      ModUnique(p, w, 0, p);
    } else {
      ColumnIsRemainder(w, p - w);
      ModUnique(p, w, (p - w) / w + 1, (p - w) % w);
    }
  }

  /** Row-major coordinates: pixel y * w + x sits in column x. */
  lemma {:induction false} ColumnOfCoordinates(w: nat, x: nat, y: nat)
    requires x < w
    ensures Column(w, y * w + x) == x
  {
    if y > 0 {
      assert y * w + x - w == (y - 1) * w + x;
      ColumnOfCoordinates(w, x, y - 1);
    }
  }

  /** Pixel p is the last of its row. */
  predicate LastColumn(w: nat, p: nat)
    requires w > 0
  {
    Column(w, p) == w - 1
  }

  /**
   * The test the filter loop makes on slot c (R, G or B) of pixel p,
   * `(i + 4) % (width * 4) == 0` with i = 4 * p + c, holds exactly for the
   * R slot of a last-column pixel.
   */
  lemma LastColumnTest(w: nat, p: nat, c: nat)
    requires w >= 1 && c < 3
    ensures (4 * p + c + 4) % (w * 4) == 0 <==> c == 0 && LastColumn(w, p)
  {
    ColumnIsRemainder(w, p);
    var q, r := p / w, p % w;
    if r == w - 1 {
      assert 4 * p + c + 4 == (q + 1) * (w * 4) + c;
      ModUnique(4 * p + c + 4, w * 4, q + 1, c);
    } else {
      assert 4 * p + c + 4 == q * (w * 4) + (4 * r + 4 + c);
      ModUnique(4 * p + c + 4, w * 4, q, 4 * r + 4 + c);
    }
  }

  /** In an image at least two pixels wide, a last-column pixel has a left neighbour in its own row. */
  lemma {:induction false} LastColumnHasLeft(w: nat, p: nat)
    requires w >= 2 && LastColumn(w, p)
    ensures p >= 1 && !LastColumn(w, p - 1)
    decreases p
  {
    if p >= w {
      LastColumnHasLeft(w, p - w);
      assert Column(w, p - 1) == Column(w, p - 1 - w);
    }
  }
}
