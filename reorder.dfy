/**
 * The block-to-raster reordering of reorder_hex_data.py: `rearrange_pixels` takes the
 * records of an image stored block by block (each block_size x block_size block row-major,
 * the blocks left to right, then top to bottom) and emits them scanline by scanline.
 * Records are generic: the source moves stripped text lines without looking inside them.
 */
module Reorder {
  import Arith

  /** What `rearrange_pixels` produces: the reordered records, or the `ZeroDivisionError` it raises. */
  datatype Reordered<T> = Rearranged(records: seq<T>) | ZeroDivisionError

  /**
   * The geometry the source derives from its arguments: the block size, `blocks_per_row`
   * and `rows_per_block` (the number of whole rows of blocks in the input).
   */
  datatype Layout = Layout(blockSize: nat, blocksPerRow: nat, blockRows: nat) {
    predicate Valid() { blockSize > 0 && blocksPerRow > 0 }

    /** Records in one block. */
    function BlockLength(): nat { blockSize * blockSize }

    /** Records in one raster row: one row of each block in a row of blocks. */
    function RowLength(): nat { blocksPerRow * blockSize }

    /** Records in one row of blocks, the divisor of line 20. */
    function BandLength(): nat { BlockLength() * blocksPerRow }

    /** Records emitted: `rows_per_block * block_size` raster rows. */
    function Length(): nat { blockRows * BandLength() }
  }

  lemma LayoutFacts(l: Layout)
    requires l.Valid()
    ensures l.RowLength() > 0 && l.BlockLength() > 0 && l.BandLength() > 0
    ensures l.Length() == (l.blockRows * l.blockSize) * l.RowLength()
    ensures l.Length() == (l.blockRows * l.blocksPerRow) * l.BlockLength()
  {
    Arith.GridProducts(l.blockRows, l.blockSize, l.blocksPerRow);
  }

  /**
   * The layout for `count` records, an image `width` records wide and the given block size
   * (both divisions of lines 16 and 20 are floor divisions). What is emitted is a whole number
   * of rows of blocks, never more than the input, and the trailing records that are dropped
   * are fewer than one row of blocks.
   */
  function LayoutFor(count: nat, width: nat, blockSize: nat): (l: Layout)
    requires 0 < blockSize <= width
    ensures l.Valid() && l.blockSize == blockSize && l.blocksPerRow == width / blockSize
    ensures l.Length() <= count < l.Length() + l.BandLength()
  {
    var blocksPerRow := width / blockSize;
    var l := Layout(blockSize, blocksPerRow, count / (blockSize * blockSize * blocksPerRow));
    LayoutFacts(l);
    assert count == l.blockRows * l.BandLength() + count % l.BandLength();
    l
  }

  /** The `start` offset of line 23: where row `row % bs` of block `block + row // bs * bpr` begins in the input. */
  function BlockStart(l: Layout, row: nat, block: nat): int
    requires l.Valid()
  {
    var bs := l.blockSize;
    (block + row / bs * l.blocksPerRow) * (bs * bs) + (row % bs) * bs
  }

  /** The output position of column `c` of block `block` in raster row `row`. */
  function RasterPosition(l: Layout, row: int, block: int, c: int): int {
    row * l.RowLength() + block * l.blockSize + c
  }

  /** Every slice the loops take starts inside the used prefix of the input and ends inside it too. */
  lemma BlockStartBound(l: Layout, row: nat, block: nat)
    requires l.Valid() && row < l.blockRows * l.blockSize && block < l.blocksPerRow
    ensures 0 <= BlockStart(l, row, block) && BlockStart(l, row, block) + l.blockSize <= l.Length()
  {
    var bs, bpr, rows := l.blockSize, l.blocksPerRow, l.blockRows;
    LayoutFacts(l);
    var q, r := row / bs, row % bs;
    Arith.DivBound(row, bs, rows);
    Arith.MulAddBound(q, block, rows, bpr);
    var x := block + q * bpr;
    assert x < rows * bpr;
    Arith.MulAddBound(r, bs - 1, bs, bs);
    var y := r * bs;
    assert y + bs <= bs * bs;
    Arith.MulAddBound(x, y + bs - 1, rows * bpr, bs * bs);
    assert BlockStart(l, row, block) == x * (bs * bs) + y;
  }

  /** Raster positions are a mixed-radix number: row, then block, then column. */
  lemma RasterPositionDigits(l: Layout, row: nat, block: nat, c: nat)
    requires l.Valid() && row < l.blockRows * l.blockSize && block < l.blocksPerRow && c < l.blockSize
    ensures var k := RasterPosition(l, row, block, c);
      && 0 <= k < l.Length()
      && k / l.RowLength() == row
      && (k % l.RowLength()) / l.blockSize == block
      && (k % l.RowLength()) % l.blockSize == c
  {
    var bs, w := l.blockSize, l.RowLength();
    var k, offset := RasterPosition(l, row, block, c), block * bs + c;
    assert 0 <= offset < w by {
      Arith.MulAddBound(block, c, l.blocksPerRow, bs);
    }
    assert k < l.Length() by {
      LayoutFacts(l);
      Arith.MulAddBound(row, offset, l.blockRows * bs, w);
    }
    assert k / w == row && k % w == offset by {
      Arith.DivModUnique(k, w, row, offset);
    }
    assert offset / bs == block && offset % bs == c by {
      Arith.DivModUnique(offset, bs, block, c);
    }
  }

  /** The digits of a raster position below the output length are in range. */
  lemma RasterDigitsBound(l: Layout, k: nat)
    requires l.Valid() && k < l.Length()
    ensures k / l.RowLength() < l.blockRows * l.blockSize
    ensures (k % l.RowLength()) / l.blockSize < l.blocksPerRow
  {
    LayoutFacts(l);
    Arith.DivBound(k, l.RowLength(), l.blockRows * l.blockSize);
    Arith.DivBound(k % l.RowLength(), l.blockSize, l.blocksPerRow);
  }

  /**
   * Where raster position `k` takes its record from: the slice start of line 23 for its
   * raster row and block, plus its column within the block. It stays inside the used input.
   */
  function SourceIndex(l: Layout, k: nat): (s: nat)
    requires l.Valid() && k < l.Length()
    ensures s < l.Length()
  {
    LayoutFacts(l);
    var w := l.RowLength();
    RasterDigitsBound(l, k);
    BlockStartBound(l, k / w, (k % w) / l.blockSize);
    BlockStart(l, k / w, (k % w) / l.blockSize) + (k % w) % l.blockSize
  }

  /**
   * The reordered records as a function of the input: position `k` of the output holds the
   * input record at `SourceIndex(l, k)`. Only the first `l.Length()` records are used.
   */
  function ToRaster<T>(pixels: seq<T>, l: Layout): (r: seq<T>)
    requires l.Valid() && l.Length() <= |pixels|
    ensures |r| == l.Length()
  {
    seq(l.Length(), k requires 0 <= k < l.Length() => pixels[SourceIndex(l, k)])
  }

  /**
   * The index formula, read off the reordered records: column `c` of block `block` in raster
   * row `row` is output position `row * bpr * bs + block * bs + c`, and it holds input record
   * `(block + row // bs * bpr) * bs^2 + (row % bs) * bs + c`, copied verbatim.
   */
  lemma ToRasterAt<T>(pixels: seq<T>, l: Layout, row: nat, block: nat, c: nat)
    requires l.Valid() && l.Length() <= |pixels|
    requires row < l.blockRows * l.blockSize && block < l.blocksPerRow && c < l.blockSize
    ensures var k, s := RasterPosition(l, row, block, c), BlockStart(l, row, block) + c;
      |ToRaster(pixels, l)| == l.Length() && 0 <= k < l.Length() && 0 <= s < l.Length() &&
      ToRaster(pixels, l)[k] == pixels[s]
  {
    RasterPositionDigits(l, row, block, c);
    BlockStartBound(l, row, block);
  }

  /**
   * The input offset `x * bs^2 + rw * bs + c` of column `c` of row `rw` of block `x`, read back
   * in base `bs`, and the block number `x = block + q * bpr` read back in base `bpr`.
   */
  lemma BlockOffsetDigits(bs: int, bpr: int, q: int, block: int, rw: int, c: int, x: int, s: int)
    requires 0 < bs && 0 < bpr && 0 <= q && 0 <= block < bpr && 0 <= rw < bs && 0 <= c < bs
    requires x == block + q * bpr && s == x * (bs * bs) + rw * bs + c
    ensures s % bs == c && (s / bs) % bs == rw && s / bs / bs == x && x / bpr == q && x % bpr == block
  {
    assert 0 <= x;
    assert s == (x * bs + rw) * bs + c;
    Arith.DivModUnique(s, bs, x * bs + rw, c);
    Arith.DivModUnique(x * bs + rw, bs, x, rw);
    Arith.DivModUnique(x, bpr, q, block);
  }

  /**
   * The input record that raster position `k` copies determines the digits of `k`: its column,
   * its block and, split in base `bs`, its raster row.
   */
  lemma SourceIndexDigits(l: Layout, k: nat)
    requires l.Valid() && k < l.Length()
    ensures var s, bs, bpr, w := SourceIndex(l, k), l.blockSize, l.blocksPerRow, l.RowLength();
      && s % bs == (k % w) % bs
      && (s / bs) % bs == (k / w) % bs
      && s / bs / bs / bpr == (k / w) / bs
      && (s / bs / bs) % bpr == (k % w) / bs
  {
    var bs, bpr, w := l.blockSize, l.blocksPerRow, l.RowLength();
    Arith.MixedRadix(k, bpr, bs);
    var row, block, c := k / w, (k % w) / bs, (k % w) % bs;
    BlockOffsetDigits(bs, bpr, row / bs, block, row % bs, c, block + row / bs * bpr, SourceIndex(l, k));
  }

  /** Two raster positions with the same row, block and column digits are the same position. */
  lemma DigitsDetermine(w: int, bs: int, k1: int, k2: int)
    requires 0 < bs && 0 < w
    requires (k1 % w) % bs == (k2 % w) % bs && (k1 % w) / bs == (k2 % w) / bs
    requires (k1 / w) % bs == (k2 / w) % bs && (k1 / w) / bs == (k2 / w) / bs
    ensures k1 == k2
  {
    assert k1 / w == k2 / w by {
      assert k1 / w == (k1 / w) / bs * bs + (k1 / w) % bs;
      assert k2 / w == (k2 / w) / bs * bs + (k2 / w) % bs;
    }
    assert k1 % w == k2 % w by {
      assert k1 % w == (k1 % w) / bs * bs + (k1 % w) % bs;
      assert k2 % w == (k2 % w) / bs * bs + (k2 % w) % bs;
    }
    assert k1 == k1 / w * w + k1 % w;
    assert k2 == k2 / w * w + k2 % w;
  }

  /** No two output positions copy the same input record. */
  lemma SourceIndexInjective(l: Layout, k1: nat, k2: nat)
    requires l.Valid() && k1 < l.Length() && k2 < l.Length()
    ensures SourceIndex(l, k1) == SourceIndex(l, k2) ==> k1 == k2
  {
    if SourceIndex(l, k1) == SourceIndex(l, k2) {
      LayoutFacts(l);
      SourceIndexDigits(l, k1);
      SourceIndexDigits(l, k2);
      DigitsDetermine(l.RowLength(), l.blockSize, k1, k2);
    }
  }

  /**
   * If `a[k] == b[p[k]]` for indices `p` that are distinct and inside `b`, and both have the
   * same length, then `a` is a permutation of `b`.
   */
  lemma {:induction false} PermutedByIndices<T>(a: seq<T>, b: seq<T>, p: seq<nat>)
    requires |a| == |b| == |p|
    requires forall k | 0 <= k < |p| :: p[k] < |b| && a[k] == b[p[k]]
    requires forall k, m | 0 <= k < m < |p| :: p[k] != p[m]
    ensures multiset(a) == multiset(b)
    decreases |p|
  {
    if |p| > 0 {
      var n := |p| - 1;
      var j := p[n];
      var b' := b[..j] + b[j + 1..];
      var p' := seq(n, k requires 0 <= k < n => if p[k] < j then p[k] else p[k] - 1);
      forall k | 0 <= k < n
        ensures p'[k] < |b'| && a[..n][k] == b'[p'[k]]
      {
        assert p[k] != j;
      }
      forall k, m | 0 <= k < m < n
        ensures p'[k] != p'[m]
      {
        assert p[k] != j && p[m] != j;
      }
      PermutedByIndices(a[..n], b', p');
      assert a == a[..n] + [a[n]];
      assert b == b[..j] + [b[j]] + b[j + 1..];
    }
  }

  /** No record is duplicated or lost: the output is a permutation of the used prefix of the input. */
  lemma ToRasterPermutation<T>(pixels: seq<T>, l: Layout)
    requires l.Valid() && l.Length() <= |pixels|
    ensures multiset(ToRaster(pixels, l)) == multiset(pixels[..l.Length()])
  {
    var n := l.Length();
    var p := seq(n, k requires 0 <= k < n => SourceIndex(l, k));
    forall k, m | 0 <= k < m < n
      ensures p[k] != p[m]
    {
      SourceIndexInjective(l, k, m);
    }
    PermutedByIndices(ToRaster(pixels, l), pixels[..n], p);
  }

  /** With a block size of 1 the reorder is the identity on the whole rows of the input. */
  lemma BlockSizeOneIsIdentity<T>(pixels: seq<T>, width: nat)
    requires 0 < width
    ensures var l := LayoutFor(|pixels|, width, 1);
      l.Length() == |pixels| / width * width && ToRaster(pixels, l) == pixels[..l.Length()]
  {
    var l := LayoutFor(|pixels|, width, 1);
    LayoutFacts(l);
    forall k | 0 <= k < l.Length()
      ensures SourceIndex(l, k) == k
    {
      var w := l.RowLength();
      assert k == k / w * w + k % w;
    }
  }

  /** A width that is not a multiple of the block size is floored: the extra columns change nothing. */
  lemma WidthIsFloored(count: nat, width: nat, blockSize: nat)
    requires 0 < blockSize <= width
    ensures blockSize <= width / blockSize * blockSize
    ensures LayoutFor(count, width, blockSize) == LayoutFor(count, width / blockSize * blockSize, blockSize)
  {
    Arith.DivModUnique(width / blockSize * blockSize, blockSize, width / blockSize, 0);
  }

  /**
   * A 16 x 8 image in 8 x 8 blocks whose records are their own block-order indices: raster
   * row 3, column 10 comes from block 1, row 3 of the block, column 2 of the block.
   */
  lemma TwoBlockExample()
    ensures var pixels := seq(128, i => i);
      var l := LayoutFor(128, 16, 8);
      l == Layout(8, 2, 1) && ToRaster(pixels, l)[3 * 16 + 10] == 1 * 64 + 3 * 8 + 2
  {
    var l := LayoutFor(128, 16, 8);
    ToRasterAt(seq(128, i => i), l, 3, 1, 2);
  }

  /**
   * One step of the inner loop: the slice `pixels[start:start + block_size]` lies inside the
   * used prefix of the input, and appending it to the output up to row `row`, block `block`
   * gives the output up to the next block.
   */
  lemma RasterSlice<T>(pixels: seq<T>, l: Layout, row: nat, block: nat)
    requires l.Valid() && l.Length() <= |pixels|
    requires row < l.blockRows * l.blockSize && block < l.blocksPerRow
    ensures var pos, next, start := RasterPosition(l, row, block, 0), RasterPosition(l, row, block + 1, 0), BlockStart(l, row, block);
      var raster := ToRaster(pixels, l);
      && 0 <= pos && next == pos + l.blockSize <= l.Length()
      && 0 <= start && start + l.blockSize <= l.Length()
      && raster[..next] == raster[..pos] + pixels[start..start + l.blockSize]
  {
    var bs := l.blockSize;
    var pos, start := RasterPosition(l, row, block, 0), BlockStart(l, row, block);
    Arith.MulSucc(block, bs);
    RasterPositionDigits(l, row, block, bs - 1);
    BlockStartBound(l, row, block);
    var raster := ToRaster(pixels, l);
    var out, src := raster[pos..pos + bs], pixels[start..start + bs];
    forall c | 0 <= c < bs
      ensures out[c] == src[c]
    {
      ToRasterAt(pixels, l, row, block, c);
      assert RasterPosition(l, row, block, c) == pos + c;
    }
    assert raster[..pos + bs] == raster[..pos] + out;
  }

  /**
   * `rearrange_pixels` (lines 15-24) on the records already read from the input file: the
   * nested row/block loops extend the output with one slice of `block_size` records per step.
   * A zero block size, or a width below the block size (no whole block per row), divides by
   * zero; otherwise the output is `ToRaster` over the layout the floor divisions give.
   */
  method RearrangePixels<T>(pixels: seq<T>, width: nat, blockSize: nat) returns (res: Reordered<T>)
    ensures res.ZeroDivisionError? <==> blockSize == 0 || width < blockSize
    ensures res.Rearranged? ==> res.records == ToRaster(pixels, LayoutFor(|pixels|, width, blockSize))
  {
    if blockSize == 0 {
      return ZeroDivisionError;
    }
    var blocksPerRow := width / blockSize;
    if blocksPerRow == 0 {
      return ZeroDivisionError;
    }
    ghost var l := LayoutFor(|pixels|, width, blockSize);
    ghost var raster := ToRaster(pixels, l);
    LayoutFacts(l);
    var rearranged: seq<T> := [];
    var rowsPerBlock := |pixels| / (blockSize * blockSize * blocksPerRow);
    var row := 0;
    while row < rowsPerBlock * blockSize
      invariant 0 <= row <= rowsPerBlock * blockSize
      invariant row * l.RowLength() <= |raster|
      invariant rearranged == raster[..row * l.RowLength()]
    {
      var block := 0;
      while block < blocksPerRow
        invariant 0 <= block <= blocksPerRow
        invariant RasterPosition(l, row, block, 0) <= |raster|
        invariant rearranged == raster[..RasterPosition(l, row, block, 0)]
      {
        var start := (block + row / blockSize * blocksPerRow) * (blockSize * blockSize) + (row % blockSize) * blockSize;
        RasterSlice(pixels, l, row, block);
        rearranged := rearranged + pixels[start..start + blockSize];
        block := block + 1;
      }
      Arith.MulSucc(row, l.RowLength());
      Arith.MulLe(row + 1, l.blockRows * blockSize, l.RowLength());
      row := row + 1;
    }
    assert raster[..|raster|] == raster;
    return Rearranged(rearranged);
  }
}
