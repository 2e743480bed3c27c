# VLSI_project image helpers, modelled in Dafny

The repository feeds images to a hardware image filter and checks what comes back.
It does this with four small Python scripts. This project models the exact integer and text
logic of those scripts and proves what they promise:

- **Hex codec.** `bmp_to_hex` writes every RGB pixel of an image, in row-major order, as one
  text record `RRGGBB\n` of upper-case hex digits (`HexEncoder`). `hex_to_bmp` reads such a
  file back: it strips each line, reads characters 0-2, 2-4 and 4-6 as base-16 bytes, and
  stops with a `ValueError` at the first line that does not parse (`HexDecoder`).
- **Block-to-raster reorder.** The hardware emits pixels tile by tile: each `block_size` x
  `block_size` block row-major, the blocks left to right, the rows of blocks top to bottom.
  `rearrange_pixels` turns that stream back into scanline order with two nested loops that copy
  one `block_size`-long slice per step (`Reorder`). The records are generic: the script moves
  text lines without looking inside them.
- **Image comparison.** `color_image_similarity` checks that the two images have the same size.
  It then takes the per-channel absolute difference on int16 arrays and reports its minimum and
  maximum (`ImageCompare`).

Shared modules: `Pixels` (bytes, RGB pixels, row-major images, `Option`), `HexDigits`
(digit characters and their values) and `Arith` (facts about division and products for the
index arithmetic).

The loops of the scripts are methods proved against functions: `HexEncoder.BmpToHex` against
`HexEncoder.FormatRecord`, `HexDecoder.HexToBmp` against `HexDecoder.DecodeLines`, and
`Reorder.RearrangePixels` against `Reorder.ToRaster`. The lemmas about those functions carry
the properties: the codec round trip, the index formula and permutation of the reorder,
the parse rules.

The scripts validate nothing beyond what Python itself raises:

- `rearrange_pixels` has no configuration or shape error. A width that is not a multiple of the
  block size is floored (`Reorder.WidthIsFloored`). A trailing partial row of blocks is dropped
  (`Reorder.LayoutFor`). The only failure is Python's `ZeroDivisionError`, raised when the
  block size is 0 or the width is below it.
- `hex_to_bmp` has no separate format error for a short record. A stripped line of exactly five
  hex digits parses, and its blue channel is the single fifth digit (`HexDecoder.ParseLineFiveDigits`).
  Width and height are used only by PIL, so the decoder takes only the lines, and a record
  count that does not match the image size is not checked here.
- `color_image_similarity` returns `None` on a size mismatch instead of raising
  (`ImageCompare.CompareImages`, `SizeMismatch`).

## Model

| member | source | states |
|---|---|---|
| Reorder.RearrangePixels | reorder_hex_data.py:15-24 | Raises `ZeroDivisionError` exactly when the block size is 0 or the width is below the block size. Otherwise the nested row/block loops build exactly `ToRaster` of the input over the floored layout. |
| Reorder.LayoutFor | reorder_hex_data.py:16-20 | `blocks_per_row` is `width // block_size`. The output length `rows_per_block * blocks_per_row * block_size^2` never exceeds the input length, and fewer than one row of blocks is dropped. |
| Reorder.WidthIsFloored | reorder_hex_data.py:16 | A width that is not a multiple of the block size gives the same layout as the width rounded down to a multiple. |
| Reorder.BlockStartBound | reorder_hex_data.py:23 | Every `start` the loops compute is non-negative, and `start + block_size` stays within the records used. |
| Reorder.BlockStart | reorder_hex_data.py:23 | The `start` of line 23, `(block + row // bs * bpr) * bs^2 + (row % bs) * bs`. Its contract has no `ensures`; its bounds are stated by `Reorder.BlockStartBound`, and its use as a source index by `Reorder.ToRasterAt`. |
| Reorder.ToRaster | reorder_hex_data.py:21-24 | The output has exactly `Length()` records, one per position of the floored layout. What each position holds is stated by `Reorder.ToRasterAt`, and that the output permutes the used input by `Reorder.ToRasterPermutation`. |
| Reorder.SourceIndex | reorder_hex_data.py:23-24 | The input record that each output position copies lies inside the used prefix of the input. |
| Reorder.RasterSlice | reorder_hex_data.py:23-24 | Each slice `pixels[start:start + block_size]` lies inside the input. Appending it extends the output by exactly the next block-width stretch of the raster. |
| Reorder.ToRasterAt | reorder_hex_data.py:21-24 | Output position `row * bpr * bs + block * bs + c` holds input record `(block + row // bs * bpr) * bs^2 + (row % bs) * bs + c`, copied verbatim. |
| Reorder.SourceIndexInjective | reorder_hex_data.py:21-24 | Two output positions never copy the same input record. |
| Reorder.ToRasterPermutation | reorder_hex_data.py:21-24 | The output is a permutation of the used input prefix: as multisets they are equal, so no record is lost or duplicated. |
| Reorder.BlockSizeOneIsIdentity | reorder_hex_data.py:16-24 | With block size 1 the output is the input prefix of length `len // width * width`, unchanged. |
| Reorder.TwoBlockExample | reorder_hex_data.py:21-24 | For a 16 x 8 image in 8 x 8 blocks (128 records numbered in block order), raster row 3, column 10 is record 90: block 1, row 3 of the block, column 2. |
| HexEncoder.FormatByte | convert_bmp_to_hex.py:23 | `{:02X}` gives two upper-case hex digits, high digit first, that read back as the byte. |
| HexEncoder.FormatByteExtremes | convert_bmp_to_hex.py:23 | 0 is written `00` and 255 is written `FF`. |
| HexEncoder.FormatRecord | convert_bmp_to_hex.py:21-23 | A record is six upper-case hex digits and a newline. Digits 0-1, 2-3 and 4-5 read back as R, G and B. |
| HexEncoder.FormatRecordInjective | convert_bmp_to_hex.py:23 | Distinct pixels are written as distinct records. |
| HexEncoder.BmpToHex | convert_bmp_to_hex.py:19-23 | The y-then-x loop writes exactly `width * height` records, and record k is the formatted pixel k. |
| HexDecoder.IsSpace | convert_hex_to_bmp.py:15 | The characters `str.strip()` removes: the code points for which Python's `str.isspace` holds. It is a predicate with no `ensures`; how `strip` uses it is stated by `HexDecoder.StripSpec`. |
| HexDecoder.StripLeft | convert_hex_to_bmp.py:15 | No `ensures` of its own. `HexDecoder.StripLeftSpec` states that it drops a run of whitespace from the front, and nothing else, and that the result does not start with whitespace. |
| HexDecoder.StripRight | convert_hex_to_bmp.py:15 | No `ensures` of its own. `HexDecoder.StripRightSpec` states the same for the end of the line. |
| HexDecoder.Strip | convert_hex_to_bmp.py:15 | No `ensures` of its own. `strip()` is the right strip of the left strip; its properties are stated by `HexDecoder.StripSpec`, `HexDecoder.StripPadded` and `HexDecoder.StripUnpadded`. |
| HexDecoder.StripLeftSpec | convert_hex_to_bmp.py:15 | The left strip is a suffix of the line: everything before it is whitespace, and it is empty or starts with a non-whitespace character. |
| HexDecoder.StripRightSpec | convert_hex_to_bmp.py:15 | The right strip is a prefix of the line: everything after it is whitespace, and it is empty or ends with a non-whitespace character. |
| HexDecoder.StripSpec | convert_hex_to_bmp.py:15 | `strip` keeps a contiguous part of the line that has no whitespace at either end. Everything removed before and after it is whitespace. |
| HexDecoder.StripPadded | convert_hex_to_bmp.py:15 | Whitespace on either side of a line, its trailing newline included, does not change the stripped line. |
| HexDecoder.StripUnpadded | convert_hex_to_bmp.py:15 | A line with no whitespace at either end is left as it is. |
| HexDecoder.Slice | convert_hex_to_bmp.py:18-20 | Python's `s[i:j]` clamps to the string: the result is at most `j - i` long and is the part of `s` starting at `i`. It stops short of `j` only at the end of `s`. |
| HexDecoder.ParseField | convert_hex_to_bmp.py:18-20 | `int(t, 16)` on a slice of at most two characters succeeds exactly when the slice is non-empty and made of hex digits. For two digits, the value's high and low nibbles are the two digit values. |
| HexDecoder.ParseStripped | convert_hex_to_bmp.py:18-20 | No `ensures` of its own. It reads the three slices of a stripped line as R, G and B, and fails if any one fails. Its behaviour is stated through `HexDecoder.ParseLine` by the lemmas below. |
| HexDecoder.ParseLine | convert_hex_to_bmp.py:15-20 | No `ensures` of its own. `strip`, then `ParseStripped`. Its properties are stated by `HexDecoder.ParseLineAccepts`, `HexDecoder.ParseLineValue`, `HexDecoder.ParseLineFiveDigits` and `HexDecoder.ParseLineCaseInsensitive`. |
| HexDecoder.ParseLineAccepts | convert_hex_to_bmp.py:15-20 | A line parses if and only if, once stripped, it has at least five characters and its first six (or five) are all hex digits. Blank and shorter lines raise. |
| HexDecoder.ParseLineValue | convert_hex_to_bmp.py:18-20 | With six digits after stripping, each channel is `16 * high + low` of the digits at positions 0, 2 and 4. Characters after the sixth are ignored. |
| HexDecoder.ParseLineFiveDigits | convert_hex_to_bmp.py:18-20 | With exactly five digits after stripping, the line still parses, and blue is the value of the single fifth digit. |
| HexDecoder.ParseLineCaseInsensitive | convert_hex_to_bmp.py:18-20 | Upper-casing the hex letters of a line does not change how it parses. |
| HexDecoder.ParseRecordShape | convert_hex_to_bmp.py:15-20 | A line of six upper-case digits and a newline reads as the three bytes its digit pairs denote. |
| HexDecoder.ParseRecord | convert_hex_to_bmp.py:15-20 | Round trip: the record `bmp_to_hex` writes for a pixel parses back to that pixel. |
| HexDecoder.Collect | convert_hex_to_bmp.py:13-23 | From the per-line parse results it gives either all pixels, one per line and in order, or the index of the first failing line, with every earlier line parsed. |
| HexDecoder.DecodeLines | convert_hex_to_bmp.py:13-23 | Decoding gives one pixel per line, in order, each the parse of its line. Otherwise it gives the first line that fails to parse, with every line before it parsing. |
| HexDecoder.HexToBmp | convert_hex_to_bmp.py:13-23 | The strip/parse/append loop gives exactly `DecodeLines` of its lines, stopping at the first line that does not parse. |
| HexDecoder.DecodeAllParsed | convert_hex_to_bmp.py:13-23 | When every line parses to a given pixel, decoding gives exactly those pixels. |
| HexDecoder.DecodeEncoded | convert_hex_to_bmp.py:13-23 | Round trip over a whole file: decoding the records written for some pixels gives those pixels back. |
| ImageCompare.Int16 | image_compare.py:16-20 | NumPy int16 arithmetic: the result lies in [-32768, 32767] and is congruent to the exact value modulo 2^16. |
| ImageCompare.ChannelDiff | image_compare.py:16-20 | `abs(a - b)` computed in int16 is between 0 and 255 and equals `a - b` or `b - a`: the int16 arithmetic never wraps on bytes. |
| ImageCompare.PixelDiff | image_compare.py:20 | Each of the three channels of a cell of `np.abs(img1 - img2)` is between 0 and 255; `ImageCompare.ChannelDiff` states that each is the distance of the two bytes. |
| ImageCompare.DiffGrid | image_compare.py:16-20 | The difference grid has one cell per pixel of the inputs. What each cell holds is stated by `ImageCompare.CompareImages`. |
| ImageCompare.MinDiff | image_compare.py:21 | `diff.min()` is a channel value of some cell and no channel of any cell is smaller. |
| ImageCompare.MaxDiff | image_compare.py:22 | `diff.max()` is a channel value of some cell and no channel of any cell is larger. |
| ImageCompare.CompareImages | image_compare.py:11-22 | Returns `None` exactly when the sizes differ. A zero-size image makes `min()` raise. Otherwise the grid has the inputs' shape, cell i is the difference of pixel i, the reported minimum and maximum are `MinDiff` and `MaxDiff` of that grid, and `0 <= min <= max <= 255`. |
| ImageCompare.CompareSymmetric | image_compare.py:20 | Swapping the two images gives the same result: same grid, same minimum and maximum. |
| ImageCompare.CompareWithItself | image_compare.py:20-22 | An image compared with itself has an all-zero grid, and its minimum and maximum are 0. |
| ImageCompare.BlackAgainstWhite | image_compare.py:20-22 | One black pixel against one white pixel gives the grid `[(255, 255, 255)]` and minimum = maximum = 255. |

## Left out

- File and library I/O is not modelled: `open`, `readlines`, `write`, PIL's `Image.open`, `convert`, `getdata`, `new`, `putdata` and `save`, argparse and every `print`. The models start from the pixels or lines those calls produce and end with the values they would write or print.
- The module-level example calls (reorder_hex_data.py:31-35, convert_bmp_to_hex.py:27, convert_hex_to_bmp.py:37) are script glue with fixed file names.
- Splitting a file into lines is not modelled. `rearrange_pixels` starts from the list of stripped lines, and `hex_to_bmp` from the list `readlines` returns.
- The grayscale difference image (image_compare.py:25-30) uses float luma weights and `astype(np.uint8)`. Floating point is not modelled.
- The similarity score (image_compare.py:33-38) uses `np.mean` and float arithmetic. Floating point is not modelled.
- What `putdata` does with a pixel count that differs from `width * height` is PIL behaviour, outside this model.
- HexDecoder.ParseField: treats as a `ValueError` every slice that is not made of ASCII hex digits. That includes a sign, surrounding whitespace and non-ASCII decimal digits, which Python's `int(_, 16)` would accept. That leniency is not modelled.
- Reorder.RearrangePixels: the width and block size are natural numbers. Negative arguments, which Python would floor-divide without error, are not modelled.

