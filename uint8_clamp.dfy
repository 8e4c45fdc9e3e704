/**
 * The pixel store of a canvas ImageData buffer: a Uint8ClampedArray.
 * Every value written into it is converted by ECMAScript's ToUint8Clamp
 * (section 7.1.12 of ECMA-262): clamped to [0, 255] and rounded to the
 * nearest integer, ties to even.
 */
module Uint8Clamp {

  /** One slot of the RGBA buffer. */
  type Byte = b: int | 0 <= b < 256

  /** ToUint8Clamp on an exact real (NaN, which the model never produces, is left out). */
  function ToUint8Clamp(x: real): (b: Byte)
    ensures x <= 0.0 ==> b == 0
    ensures x >= 255.0 ==> b == 255
    ensures 0.0 <= x <= 255.0 ==> x - 0.5 <= b as real <= x + 0.5
  {
    if x <= 0.0 then 0
    else if x >= 255.0 then 255
    else
      var f := x.Floor;
      if f as real + 0.5 < x then f + 1
      else if x < f as real + 0.5 then f
      else if f % 2 == 1 then f + 1
      else f
  }

  /** An integer clamped into [0, 255]. */
  function ClampByte(v: int): (b: Byte)
    ensures v <= 0 ==> b == 0
    ensures v >= 255 ==> b == 255
    ensures 0 <= v <= 255 ==> b == v
  {
    if v < 0 then 0 else if v > 255 then 255 else v
  }

  /** Storing an integer clamps it; it never wraps modulo 256. */
  lemma StoreInteger(v: int)
    ensures ToUint8Clamp(v as real) == ClampByte(v)
  {
    if 0 < v < 255 {
      assert (v as real).Floor == v;
    }
  }

  /**
   * The value processGrayScale stores in R, G and B: the average
   * (r + g + b) / 3, rounded to the nearest integer (a third never ties).
   */
  function GrayAverage(r: Byte, g: Byte, b: Byte): (v: Byte)
    ensures 3 * v - 1 <= r + g + b <= 3 * v + 1
  {
    (r as int + g as int + b as int + 1) / 3
  }

  /** Storing the exact quotient (r + g + b) / 3 gives the gray average. */
  lemma StoreAverage(r: Byte, g: Byte, b: Byte)
    ensures ToUint8Clamp((r as int + g as int + b as int) as real / 3.0) == GrayAverage(r, g, b)
  {
    var sum := r as int + g as int + b as int;
    var q := sum / 3;
    var x := sum as real / 3.0;
    assert x == q as real + (sum % 3) as real / 3.0;
    assert x.Floor == q;
  }

  /** Averaging a pixel that is already gray leaves it unchanged. */
  lemma GrayAverageOfGray(v: Byte)
    ensures GrayAverage(v, v, v) == v
  {
  }

  /**
   * The alpha value of an edge pixel, 255 - 255 * transparency / 100,
   * as the buffer stores it (exact reals instead of IEEE doubles).
   */
  function EdgeAlpha(transparency: real): (a: Byte)
    ensures 0.0 <= transparency <= 100.0 ==>
              255.0 - 2.55 * transparency - 0.5 <= a as real <= 255.0 - 2.55 * transparency + 0.5
    ensures transparency <= 0.0 ==> a == 255
    ensures transparency >= 100.0 ==> a == 0
  {
    ToUint8Clamp(255.0 - 255.0 * transparency / 100.0)
  }
}
