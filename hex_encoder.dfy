/** The image-to-hex direction of the codec: `bmp_to_hex` in convert_bmp_to_hex.py. */
module HexEncoder {
  import opened Pixels
  import opened HexDigits
  import Arith

  /** `"{:02X}".format(v)`: two upper-case digits that read back as `v`. */
  function FormatByte(v: Byte): (s: string)
    ensures |s| == 2 && IsUpperHexDigit(s[0]) && IsUpperHexDigit(s[1])
    ensures ByteAt(s, 0) == v
  {
    [UpperDigit(v / 16), UpperDigit(v % 16)]
  }

  /**
   * One record of the hex file, `"{:02X}{:02X}{:02X}\n".format(r, g, b)`: six upper-case
   * digits holding R, G and B in that order, then a newline (the last record has one too).
   */
  function FormatRecord(p: Rgb): (s: string)
    ensures |s| == 7 && s[6] == '\n'
    ensures (forall i {:trigger s[i]} | 0 <= i < 6 :: IsUpperHexDigit(s[i])) &&
            ByteAt(s, 0) == p.r && ByteAt(s, 2) == p.g && ByteAt(s, 4) == p.b
  {
    var s := FormatByte(p.r) + FormatByte(p.g) + FormatByte(p.b) + "\n";
    assert s[0..2] == FormatByte(p.r) && s[2..4] == FormatByte(p.g) && s[4..6] == FormatByte(p.b);
    s
  }

  /** The extreme channel values: 0 is written "00" and 255 is written "FF". */
  lemma FormatByteExtremes()
    ensures FormatByte(0) == "00" && FormatByte(255) == "FF"
  {
  }

  /** Distinct pixels are written as distinct records. */
  lemma FormatRecordInjective(p: Rgb, q: Rgb)
    ensures FormatRecord(p) == FormatRecord(q) ==> p == q
  {
    if FormatRecord(p) == FormatRecord(q) {
      assert ByteAt(FormatRecord(p), 0) == ByteAt(FormatRecord(q), 0);
      assert ByteAt(FormatRecord(p), 2) == ByteAt(FormatRecord(q), 2);
      assert ByteAt(FormatRecord(p), 4) == ByteAt(FormatRecord(q), 4);
    }
  }

  /**
   * The y-then-x loop of `bmp_to_hex`: one record per pixel, record k written from
   * pixel k, so the records come out in row-major order. The lines are what the file
   * receives, one `write` each.
   */
  method BmpToHex(img: Image) returns (lines: seq<string>)
    requires img.Valid()
    ensures |lines| == img.width * img.height
    ensures forall k | 0 <= k < |lines| :: lines[k] == FormatRecord(img.pixels[k])
  {
    lines := [];
    var y := 0;
    while y < img.height
      invariant 0 <= y <= img.height
      invariant |lines| == y * img.width <= |img.pixels|
      invariant forall k | 0 <= k < |lines| :: lines[k] == FormatRecord(img.pixels[k])
    {
      var x := 0;
      while x < img.width
        invariant 0 <= x <= img.width
        invariant |lines| == y * img.width + x <= |img.pixels|
        invariant forall k | 0 <= k < |lines| :: lines[k] == FormatRecord(img.pixels[k])
      {
        Arith.MulAddBound(y, x, img.height, img.width);
        lines := lines + [FormatRecord(img.pixels[y * img.width + x])];
        x := x + 1;
      }
      assert (y + 1) * img.width == y * img.width + img.width;
      y := y + 1;
    }
    assert y * img.width == img.width * img.height;
  }
}
