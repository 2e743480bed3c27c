/**
 * The integer part of `color_image_similarity` in image_compare.py: the size check, the
 * per-channel absolute difference computed on int16 arrays, and its minimum and maximum.
 */
module ImageCompare {
  import opened Pixels

  /** NumPy int16 arithmetic: results wrap modulo 2^16 into [-32768, 32767]. */
  function Int16(x: int): (r: int)
    ensures -32768 <= r < 32768 && (r - x) % 65536 == 0
  {
    (x + 32768) % 65536 - 32768
  }

  /**
   * One cell of `np.abs(img1 - img2)` with both images as int16 arrays: the subtraction and
   * the absolute value are each taken in int16. For two bytes nothing wraps, and the cell is
   * the exact distance between them.
   */
  function ChannelDiff(a: Byte, b: Byte): (d: int)
    ensures 0 <= d <= 255
    ensures d == a - b || d == b - a
  {
    var x := Int16(a - b);
    Int16(if x < 0 then -x else x)
  }

  /** The three channel differences of one pixel. */
  datatype Diff3 = Diff3(r: int, g: int, b: int)

  function PixelDiff(p: Rgb, q: Rgb): (d: Diff3)
    ensures 0 <= d.r <= 255 && 0 <= d.g <= 255 && 0 <= d.b <= 255
  {
    Diff3(ChannelDiff(p.r, q.r), ChannelDiff(p.g, q.g), ChannelDiff(p.b, q.b))
  }

  /** The smallest and the largest of a pixel's three channel differences. */
  function Min3(d: Diff3): int {
    if d.r <= d.g && d.r <= d.b then d.r else if d.g <= d.b then d.g else d.b
  }

  function Max3(d: Diff3): int {
    if d.r >= d.g && d.r >= d.b then d.r else if d.g >= d.b then d.g else d.b
  }

  predicate IsChannelOf(v: int, d: Diff3) {
    v == d.r || v == d.g || v == d.b
  }

  /** `diff.min()`: a channel value of some cell, and no channel of any cell is smaller. */
  function MinDiff(diff: seq<Diff3>): (m: int)
    requires |diff| > 0
    ensures forall i | 0 <= i < |diff| :: m <= diff[i].r && m <= diff[i].g && m <= diff[i].b
    ensures exists i | 0 <= i < |diff| :: IsChannelOf(m, diff[i])
    decreases |diff|
  {
    if |diff| == 1 then Min3(diff[0])
    else
      var rest := MinDiff(diff[1..]);
      assert forall i | 1 <= i < |diff| :: diff[i] == diff[1..][i - 1];
      if Min3(diff[0]) <= rest then Min3(diff[0]) else rest
  }

  /** `diff.max()`: a channel value of some cell, and no channel of any cell is larger. */
  function MaxDiff(diff: seq<Diff3>): (m: int)
    requires |diff| > 0
    ensures forall i | 0 <= i < |diff| :: diff[i].r <= m && diff[i].g <= m && diff[i].b <= m
    ensures exists i | 0 <= i < |diff| :: IsChannelOf(m, diff[i])
    decreases |diff|
  {
    if |diff| == 1 then Max3(diff[0])
    else
      var rest := MaxDiff(diff[1..]);
      assert forall i | 1 <= i < |diff| :: diff[i] == diff[1..][i - 1];
      if Max3(diff[0]) >= rest then Max3(diff[0]) else rest
  }

  /**
   * What `color_image_similarity` computes before its floating-point part: nothing but the
   * `None` return when the sizes differ, the error NumPy raises when asked for the minimum of
   * an empty array, or the difference grid with its minimum and maximum.
   */
  datatype Comparison =
    | SizeMismatch
    | EmptyReduction
    | Compared(diff: seq<Diff3>, minDiff: int, maxDiff: int)

  /** The difference grid, pixel by pixel in the row-major order both images share. */
  function DiffGrid(img1: Image, img2: Image): (g: seq<Diff3>)
    requires |img1.pixels| == |img2.pixels|
    ensures |g| == |img1.pixels|
  {
    seq(|img1.pixels|, i requires 0 <= i < |img1.pixels| => PixelDiff(img1.pixels[i], img2.pixels[i]))
  }

  /**
   * Lines 11-22 of `color_image_similarity`, on the two images PIL has loaded: the size
   * guard, `np.abs(img1 - img2)` and its `min()` and `max()`.
   */
  function CompareImages(img1: Image, img2: Image): (c: Comparison)
    requires img1.Valid() && img2.Valid()
    ensures c.SizeMismatch? <==> img1.width != img2.width || img1.height != img2.height
    ensures c.EmptyReduction? <==> !c.SizeMismatch? && img1.width * img1.height == 0
    ensures c.Compared? ==>
              && |c.diff| == |img1.pixels| == |img2.pixels|
              && (forall i | 0 <= i < |c.diff| :: c.diff[i] == PixelDiff(img1.pixels[i], img2.pixels[i]))
              && 0 <= c.minDiff <= c.maxDiff <= 255
              && |c.diff| > 0 && c.minDiff == MinDiff(c.diff) && c.maxDiff == MaxDiff(c.diff)
  {
    if (img1.width, img1.height) != (img2.width, img2.height) then SizeMismatch
    else
      var diff := DiffGrid(img1, img2);
      if |diff| == 0 then EmptyReduction
      else
        var lo, hi := MinDiff(diff), MaxDiff(diff);
        assert lo <= diff[0].r <= hi;
        Compared(diff, lo, hi)
  }

  /** Swapping the two images gives the same result: the same grid, minimum and maximum. */
  lemma CompareSymmetric(img1: Image, img2: Image)
    requires img1.Valid() && img2.Valid()
    ensures CompareImages(img1, img2) == CompareImages(img2, img1)
  {
    if img1.width == img2.width && img1.height == img2.height {
      assert DiffGrid(img1, img2) == DiffGrid(img2, img1) by {
        forall i | 0 <= i < |img1.pixels|
          ensures PixelDiff(img1.pixels[i], img2.pixels[i]) == PixelDiff(img2.pixels[i], img1.pixels[i])
        {
        }
      }
    }
  }

  /** An image compared with itself: every cell is zero, and so are the minimum and the maximum. */
  lemma CompareWithItself(img: Image)
    requires img.Valid() && img.width * img.height > 0
    ensures var c := CompareImages(img, img);
      && c.Compared?
      && (forall i | 0 <= i < |c.diff| :: c.diff[i] == Diff3(0, 0, 0))
      && c.minDiff == 0 && c.maxDiff == 0
  {
    var c := CompareImages(img, img);
    var j :| 0 <= j < |c.diff| && IsChannelOf(c.maxDiff, c.diff[j]);
  }

  /** One black pixel against one white pixel: every difference, hence the minimum, is 255. */
  lemma BlackAgainstWhite()
    ensures var black, white := Image(1, 1, [Rgb(0, 0, 0)]), Image(1, 1, [Rgb(255, 255, 255)]);
      var c := CompareImages(black, white);
      c.Compared? && c.diff == [Diff3(255, 255, 255)] && c.minDiff == 255 && c.maxDiff == 255
  {
    var black, white := Image(1, 1, [Rgb(0, 0, 0)]), Image(1, 1, [Rgb(255, 255, 255)]);
    var c := CompareImages(black, white);
    assert c.diff[0] == Diff3(255, 255, 255);
  }
}
