/**
 * Grayscale processing: processGrayScale on three slots of the RGBA buffer,
 * and filteringBackground, which applies it pixel by pixel in place.
 */
module GrayScale {
  import opened Uint8Clamp

  /** The buffer a with slots iR, iG and iB all set to the gray average of their values, nothing else changed. */
  function Grayed(a: seq<Byte>, iR: nat, iG: nat, iB: nat): seq<Byte>
    requires iR < |a| && iG < |a| && iB < |a|
  {
    var v := GrayAverage(a[iR], a[iG], a[iB]);
    a[iR := v][iG := v][iB := v]
  }

  /** processGrayScale: R, G and B all receive the rounded average of the three. */
  method ProcessGrayScale(data: array<Byte>, indexR: nat, indexG: nat, indexB: nat)
    requires indexR < data.Length && indexG < data.Length && indexB < data.Length
    modifies data
    ensures data[indexR] == data[indexG] == data[indexB]
              == GrayAverage(old(data[indexR]), old(data[indexG]), old(data[indexB]))
    ensures data[..] == Grayed(old(data[..]), indexR, indexG, indexB)
  {
    var sum := data[indexR] as int + data[indexG] as int + data[indexB] as int;
    var average := sum as real / 3.0;
    StoreAverage(data[indexR], data[indexG], data[indexB]);
    data[indexR] := ToUint8Clamp(average);
    data[indexG] := ToUint8Clamp(average);
    data[indexB] := ToUint8Clamp(average);
  }

  /**
   * Slot c (0 = R, 1 = G, 2 = B, 3 = A) of pixel k after filteringBackground:
   * its loop, bounded by |s| - 4, grays every pixel whose successor slot
   * 4 * k + 4 exists, and leaves every alpha and the whole last pixel alone.
   */
  function BackgroundSlot(s: seq<Byte>, k: nat, c: nat): Byte
    requires c < 4 && 4 * k + c < |s|
  {
    if c < 3 && 4 * k + 4 < |s| then GrayAverage(s[4 * k], s[4 * k + 1], s[4 * k + 2])
    else s[4 * k + c]
  }

  /** The whole buffer filteringBackground leaves behind. */
  function BackgroundFiltered(s: seq<Byte>): (r: seq<Byte>)
    ensures |r| == |s|
  {
    seq(|s|, j requires 0 <= j < |s| => BackgroundSlot(s, j / 4, j % 4))
  }

  /** Slot c of pixel k of the filtered background. */
  lemma BackgroundAt(s: seq<Byte>, k: nat, c: nat)
    requires c < 4 && 4 * k + c < |s|
    ensures BackgroundFiltered(s)[4 * k + c] == BackgroundSlot(s, k, c)
  {
    assert (4 * k + c) / 4 == k && (4 * k + c) % 4 == c;
  }

  /** The loop's invariant at slot i: the slots before i are final, the rest untouched. */
  ghost predicate BackgroundProgress(a: seq<Byte>, s: seq<Byte>, i: nat) {
    && |a| == |s| && i <= |s|
    && (forall q: nat, c: nat :: c < 4 && 4 * q + c < i ==> a[4 * q + c] == BackgroundSlot(s, q, c))
    && (forall j :: i <= j < |s| ==> a[j] == s[j])
  }

  /** Graying pixel k, which has a successor, finishes its four slots. */
  lemma BackgroundStep(a: seq<Byte>, b: seq<Byte>, s: seq<Byte>, k: nat)
    requires BackgroundProgress(a, s, 4 * k) && 4 * k + 4 < |s|
    requires b == Grayed(a, 4 * k, 4 * k + 1, 4 * k + 2)
    ensures BackgroundProgress(b, s, 4 * k + 4)
  {
  }

  /** Once the loop bound is reached, the buffer is the filtered background. */
  lemma BackgroundDone(a: seq<Byte>, s: seq<Byte>, i: nat)
    requires BackgroundProgress(a, s, i) && i % 4 == 0 && |s| - 4 <= i
    ensures a == BackgroundFiltered(s)
  {
    forall j | 0 <= j < |s|
      ensures a[j] == BackgroundFiltered(s)[j]
    {
      var q, c := j / 4, j % 4;
      assert j == 4 * q + c;
      BackgroundAt(s, q, c);
      if j < i {
        assert a[4 * q + c] == BackgroundSlot(s, q, c);
      }
    }
  }

  /** filteringBackground: the stride-4 loop with bound data.length - 4. */
  method FilteringBackground(data: array<Byte>)
    modifies data
    ensures data[..] == BackgroundFiltered(old(data[..]))
  {
    ghost var s := data[..];
    var i := 0;
    ghost var k := 0;
    while i < data.Length - 4
      invariant i == 4 * k
      invariant BackgroundProgress(data[..], s, i)
    {
      ghost var a := data[..];
      ProcessGrayScale(data, i, i + 1, i + 2);
      BackgroundStep(a, data[..], s, k);
      i := i + 4;
      k := k + 1;
    }
    BackgroundDone(data[..], s, i);
  }

  /** Every pixel the loop visits ends gray, with the rounded average, and keeps its alpha. */
  lemma BackgroundPixelGray(s: seq<Byte>, k: nat)
    requires 4 * k + 4 < |s|
    ensures var r := BackgroundFiltered(s);
      && r[4 * k] == r[4 * k + 1] == r[4 * k + 2]
           == (s[4 * k] as int + s[4 * k + 1] as int + s[4 * k + 2] as int + 1) / 3
      && r[4 * k + 3] == s[4 * k + 3]
  {
    BackgroundAt(s, k, 0);
    BackgroundAt(s, k, 1);
    BackgroundAt(s, k, 2);
    BackgroundAt(s, k, 3);
  }

  /** The last pixel, which the loop bound |s| - 4 excludes, is left entirely unchanged. */
  lemma BackgroundLastPixelUnchanged(s: seq<Byte>, k: nat, c: nat)
    requires c < 4 && 4 * k + c < |s| <= 4 * k + 4
    ensures BackgroundFiltered(s)[4 * k + c] == s[4 * k + c]
  {
    BackgroundAt(s, k, c);
  }

  /** Filtering an already filtered background changes nothing. */
  lemma BackgroundIdempotent(s: seq<Byte>)
    ensures BackgroundFiltered(BackgroundFiltered(s)) == BackgroundFiltered(s)
  {
    var r := BackgroundFiltered(s);
    forall j | 0 <= j < |s|
      ensures BackgroundFiltered(r)[j] == r[j]
    {
      var k, c := j / 4, j % 4;
      assert j == 4 * k + c;
      BackgroundIdempotentAt(s, k, c);
    }
  }

  /** Slot c of pixel k is left alone by a second run. */
  lemma BackgroundIdempotentAt(s: seq<Byte>, k: nat, c: nat)
    requires c < 4 && 4 * k + c < |s|
    ensures BackgroundFiltered(BackgroundFiltered(s))[4 * k + c] == BackgroundFiltered(s)[4 * k + c]
  {
    var r := BackgroundFiltered(s);
    BackgroundAt(r, k, c);
    BackgroundAt(s, k, c);
    if c < 3 && 4 * k + 4 < |s| {
      BackgroundPixelGray(s, k);
      GrayAverageOfGray(r[4 * k]);
    }
  }
}
