/** The hex-to-image direction of the codec: the parsing loop of `hex_to_bmp` in convert_hex_to_bmp.py. */
module HexDecoder {
  import opened Pixels
  import opened HexDigits
  import HexEncoder

  /** The characters for which Python's `str.isspace()` holds, and so which `str.strip()` removes. */
  predicate IsSpace(c: char) {
    || '\U{0009}' <= c <= '\U{000D}' || '\U{001C}' <= c <= '\U{0020}'
    || c == '\U{0085}' || c == '\U{00A0}' || c == '\U{1680}' || '\U{2000}' <= c <= '\U{200A}'
    || c == '\U{2028}' || c == '\U{2029}' || c == '\U{202F}' || c == '\U{205F}' || c == '\U{3000}'
  }

  predicate AllSpace(s: string) {
    forall i | 0 <= i < |s| :: IsSpace(s[i])
  }

  /** `s.lstrip()`. */
  function StripLeft(s: string): string
    decreases |s|
  {
    if |s| > 0 && IsSpace(s[0]) then StripLeft(s[1..]) else s
  }

  /** `s.rstrip()`. */
  function StripRight(s: string): string
    decreases |s|
  {
    if |s| > 0 && IsSpace(s[|s| - 1]) then StripRight(s[..|s| - 1]) else s
  }

  /** `s.strip()`, as the line loop of `hex_to_bmp` applies it. */
  function Strip(s: string): string {
    StripRight(StripLeft(s))
  }

  /** `lstrip` drops a prefix made of whitespace only, and what it keeps does not start with whitespace. */
  lemma {:induction false} StripLeftSpec(s: string)
    ensures var r := StripLeft(s);
      |r| <= |s| && r == s[|s| - |r|..] && AllSpace(s[..|s| - |r|]) && (r == [] || !IsSpace(r[0]))
    decreases |s|
  {
    if |s| > 0 && IsSpace(s[0]) {
      StripLeftSpec(s[1..]);
      var r := StripLeft(s[1..]);
      assert s[..|s| - |r|] == [s[0]] + s[1..][..|s| - 1 - |r|];
    }
  }

  /** `rstrip` drops a suffix made of whitespace only, and what it keeps does not end with whitespace. */
  lemma {:induction false} StripRightSpec(s: string)
    ensures var r := StripRight(s);
      |r| <= |s| && r == s[..|r|] && AllSpace(s[|r|..]) && (r == [] || !IsSpace(r[|r| - 1]))
    decreases |s|
  {
    if |s| > 0 && IsSpace(s[|s| - 1]) {
      StripRightSpec(s[..|s| - 1]);
      var r := StripRight(s[..|s| - 1]);
      assert s[|r|..] == s[..|s| - 1][|r|..] + [s[|s| - 1]];
    }
  }

  /**
   * `strip` keeps a contiguous part of the line that neither starts nor ends with whitespace,
   * and everything it drops before and after that part is whitespace.
   */
  lemma StripSpec(s: string)
    ensures var r := Strip(s);
      && |r| <= |s|
      && (r == [] || (!IsSpace(r[0]) && !IsSpace(r[|r| - 1])))
      && exists i | 0 <= i <= |s| - |r| :: r == s[i..i + |r|] && AllSpace(s[..i]) && AllSpace(s[i + |r|..])
  {
    var l := StripLeft(s);
    StripLeftSpec(s);
    StripRightSpec(l);
    var r := StripRight(l);
    var i := |s| - |l|;
    assert l == s[i..];
    assert r == s[i..i + |r|];
    assert s[i + |r|..] == l[|r|..];
    assert AllSpace(s[..i]) && AllSpace(s[i + |r|..]);
    assert r == [] || (!IsSpace(r[0]) && !IsSpace(r[|r| - 1])) by {
      if r != [] {
        assert r[0] == l[0];
      }
    }
  }

  lemma {:induction false} StripLeftPadded(pre: string, s: string)
    requires AllSpace(pre)
    ensures StripLeft(pre + s) == StripLeft(s)
    decreases |pre|
  {
    if pre != [] {
      assert (pre + s)[1..] == pre[1..] + s;
      StripLeftPadded(pre[1..], s);
    } else {
      assert pre + s == s;
    }
  }

  lemma {:induction false} StripRightPadded(s: string, post: string)
    requires AllSpace(post)
    ensures StripRight(s + post) == StripRight(s)
    decreases |post|
  {
    if post != [] {
      assert (s + post)[..|s + post| - 1] == s + post[..|post| - 1];
      StripRightPadded(s, post[..|post| - 1]);
    } else {
      assert s + post == s;
    }
  }

  lemma {:induction false} StripTrailingPadded(s: string, post: string)
    requires AllSpace(post)
    ensures StripRight(StripLeft(s + post)) == StripRight(StripLeft(s))
    decreases |s|
  {
    if s == [] {
      assert s + post == post;
      StripLeftPadded(post, []);
      assert post + [] == post;
    } else if IsSpace(s[0]) {
      assert (s + post)[1..] == s[1..] + post;
      StripTrailingPadded(s[1..], post);
    } else {
      StripRightPadded(s, post);
    }
  }

  /** Whitespace around a line, the newline `readlines` leaves on it included, is ignored. */
  lemma StripPadded(pre: string, s: string, post: string)
    requires AllSpace(pre) && AllSpace(post)
    ensures Strip(pre + s + post) == Strip(s)
  {
    assert pre + s + post == pre + (s + post);
    StripLeftPadded(pre, s + post);
    StripTrailingPadded(s, post);
  }

  /** A string with no whitespace at either end is left as it is. */
  lemma StripUnpadded(s: string)
    requires s == [] || (!IsSpace(s[0]) && !IsSpace(s[|s| - 1]))
    ensures Strip(s) == s
  {
  }

  /** `s[i:j]` in Python: both bounds are clamped to the length of `s`, so a short `s` gives a short slice. */
  function Slice(s: string, i: nat, j: nat): (r: string)
    requires i <= j
    ensures |r| <= j - i
    ensures r == [] || (i + |r| <= |s| && r == s[i..i + |r|])
    ensures i + |r| == j || i + |r| >= |s|
  {
    if |s| <= i then [] else if |s| <= j then s[i..] else s[i..j]
  }

  /**
   * `int(t, 16)` on one slice of at most two characters: an empty slice or a non-digit
   * is the `ValueError` the source raises; one digit reads as its own value, two digits
   * as high digit then low digit.
   */
  function ParseField(t: string): (v: Option<Byte>)
    requires |t| <= 2
    ensures v.Some? <==> |t| >= 1 && IsHexDigit(t[0]) && (|t| == 2 ==> IsHexDigit(t[1]))
    ensures v.Some? && |t| == 2 ==> v.value / 16 == DigitValue(t[0]) && v.value % 16 == DigitValue(t[1])
  {
    if t == [] || !IsHexDigit(t[0]) then None
    else if |t| == 1 then Some(DigitValue(t[0]))
    else if !IsHexDigit(t[1]) then None
    else Some(ByteAt(t, 0))
  }

  /**
   * One line of the hex file: strip it, then read characters 0-2, 2-4 and 4-6 as the
   * red, green and blue channels. `None` is the `ValueError` that stops the loop.
   */
  function ParseLine(line: string): Option<Rgb> {
    ParseStripped(Strip(line))
  }

  /** The parse of a line once `strip` has been applied. */
  function ParseStripped(s: string): Option<Rgb> {
    var r := ParseField(Slice(s, 0, 2));
    var g := ParseField(Slice(s, 2, 4));
    var b := ParseField(Slice(s, 4, 6));
    if r.Some? && g.Some? && b.Some? then Some(Rgb(r.value, g.value, b.value)) else None
  }

  /**
   * A line parses exactly when its stripped form has at least five characters and every
   * character among its first six is a hex digit. In particular a blank line fails.
   */
  lemma ParseLineAccepts(line: string)
    ensures var s := Strip(line);
      ParseLine(line).Some? <==> |s| >= 5 && forall i | 0 <= i < |s| && i < 6 :: IsHexDigit(s[i])
  {
    var s := Strip(line);
    if |s| >= 5 && forall i | 0 <= i < |s| && i < 6 :: IsHexDigit(s[i]) {
      assert forall i | 0 <= i < |Slice(s, 4, 6)| :: Slice(s, 4, 6)[i] == s[4 + i];
    } else if |s| >= 5 {
      var i :| 0 <= i < |s| && i < 6 && !IsHexDigit(s[i]);
      if i < 2 {
        assert Slice(s, 0, 2)[i] == s[i];
      } else if i < 4 {
        assert Slice(s, 2, 4)[i - 2] == s[i];
      } else {
        assert Slice(s, 4, 6)[i - 4] == s[i];
      }
    } else {
      assert Slice(s, 4, 6) == [];
    }
  }

  /**
   * With six or more characters after stripping, each channel is `16 * high + low` of its two
   * digits at positions 0, 2 and 4, and every character after the sixth is ignored.
   */
  lemma ParseLineValue(line: string)
    requires var s := Strip(line); |s| >= 6 && forall i | 0 <= i < 6 :: IsHexDigit(s[i])
    ensures var s := Strip(line);
      ParseLine(line) == Some(Rgb(ByteAt(s, 0), ByteAt(s, 2), ByteAt(s, 4)))
  {
    var s := Strip(line);
    assert Slice(s, 0, 2) == [s[0], s[1]];
    assert Slice(s, 2, 4) == [s[2], s[3]];
    assert Slice(s, 4, 6) == [s[4], s[5]];
    assert [s[0], s[1]][..1] == [s[0]];
    assert [s[2], s[3]][..1] == [s[2]];
    assert [s[4], s[5]][..1] == [s[4]];
  }

  /**
   * With exactly five characters after stripping, the slice for blue holds one digit and
   * `int` reads it as a one-digit number: the line parses, with blue below 16.
   */
  lemma ParseLineFiveDigits(line: string)
    requires var s := Strip(line); |s| == 5 && forall i | 0 <= i < 5 :: IsHexDigit(s[i])
    ensures var s := Strip(line);
      ParseLine(line) == Some(Rgb(ByteAt(s, 0), ByteAt(s, 2), DigitValue(s[4])))
  {
    var s := Strip(line);
    assert Slice(s, 0, 2) == [s[0], s[1]];
    assert Slice(s, 2, 4) == [s[2], s[3]];
    assert Slice(s, 4, 6) == [s[4]];
    assert [s[0], s[1]][..1] == [s[0]];
    assert [s[2], s[3]][..1] == [s[2]];
  }

  /** A line of six upper-case digits and a newline, the shape `bmp_to_hex` writes, reads as its three bytes. */
  lemma ParseRecordShape(rec: string)
    requires |rec| == 7 && rec[6] == '\n'
    requires forall i {:trigger rec[i]} | 0 <= i < 6 :: IsUpperHexDigit(rec[i])
    ensures ParseLine(rec) == Some(Rgb(ByteAt(rec, 0), ByteAt(rec, 2), ByteAt(rec, 4)))
  {
    var digits := rec[..6];
    assert rec == [] + digits + "\n";
    assert IsUpperHexDigit(rec[0]) && IsUpperHexDigit(rec[5]);
    StripPadded([], digits, "\n");
    StripUnpadded(digits);
    assert Strip(rec) == digits;
    ParseLineValue(rec);
  }

  /** Round trip: reading back the record `bmp_to_hex` writes for a pixel gives that pixel. */
  lemma ParseRecord(p: Rgb)
    ensures ParseLine(HexEncoder.FormatRecord(p)) == Some(p)
  {
    ParseRecordShape(HexEncoder.FormatRecord(p));
  }

  /** `line` with every lower-case hex letter replaced by its upper-case form. */
  function UpperLine(line: string): (u: string)
    ensures |u| == |line|
  {
    seq(|line|, i requires 0 <= i < |line| => UpperHex(line[i]))
  }

  lemma {:induction false} StripLeftUpper(s: string)
    ensures StripLeft(UpperLine(s)) == UpperLine(StripLeft(s))
    decreases |s|
  {
    if |s| > 0 {
      assert UpperLine(s)[1..] == UpperLine(s[1..]);
      StripLeftUpper(s[1..]);
    }
  }

  lemma {:induction false} StripRightUpper(s: string)
    ensures StripRight(UpperLine(s)) == UpperLine(StripRight(s))
    decreases |s|
  {
    if |s| > 0 {
      assert UpperLine(s)[..|s| - 1] == UpperLine(s[..|s| - 1]);
      StripRightUpper(s[..|s| - 1]);
    }
  }

  lemma ParseFieldUpper(t: string)
    requires |t| <= 2
    ensures ParseField(UpperLine(t)) == ParseField(t)
  {
  }

  lemma ParseStrippedUpper(s: string)
    ensures ParseStripped(UpperLine(s)) == ParseStripped(s)
  {
    var u := UpperLine(s);
    assert Slice(u, 0, 2) == UpperLine(Slice(s, 0, 2));
    assert Slice(u, 2, 4) == UpperLine(Slice(s, 2, 4));
    assert Slice(u, 4, 6) == UpperLine(Slice(s, 4, 6));
    ParseFieldUpper(Slice(s, 0, 2));
    ParseFieldUpper(Slice(s, 2, 4));
    ParseFieldUpper(Slice(s, 4, 6));
  }

  /** `int(_, 16)` does not care about case: upper-casing the hex letters of a line changes nothing. */
  lemma ParseLineCaseInsensitive(line: string)
    ensures ParseLine(UpperLine(line)) == ParseLine(line)
  {
    StripLeftUpper(line);
    StripRightUpper(StripLeft(line));
    assert Strip(UpperLine(line)) == UpperLine(Strip(line));
    ParseStrippedUpper(Strip(line));
  }

  /** The outcome of the loop: every line's pixel, or the `ValueError` raised at the first bad line. */
  datatype Decoded = Parsed(pixels: seq<Rgb>) | ValueError(line: nat)

  /**
   * The loop's outcome decided from the parse result of each line, in order: all the pixels
   * when every line parsed, otherwise the index of the first line that did not.
   */
  function Collect(parsed: seq<Option<Rgb>>): (d: Decoded)
    ensures d.Parsed? ==>
              |d.pixels| == |parsed| && forall i | 0 <= i < |parsed| :: parsed[i] == Some(d.pixels[i])
    ensures d.ValueError? ==>
              d.line < |parsed| && parsed[d.line].None? && forall i | 0 <= i < d.line :: parsed[i].Some?
    decreases |parsed|
  {
    if parsed == [] then Parsed([])
    else
      match parsed[0]
      case None => ValueError(0)
      case Some(p) =>
        assert forall i | 1 <= i < |parsed| :: parsed[i] == parsed[1..][i - 1];
        match Collect(parsed[1..])
        case Parsed(ps) => Parsed([p] + ps)
        case ValueError(i) => ValueError(i + 1)
  }

  /**
   * The parsing loop as a function: one pixel per line, in the order of the lines, or the
   * index of the first line that does not parse (the lines before it all parse).
   */
  function DecodeLines(lines: seq<string>): (d: Decoded)
    ensures d.Parsed? ==>
              |d.pixels| == |lines| && forall i | 0 <= i < |lines| :: ParseLine(lines[i]) == Some(d.pixels[i])
    ensures d.ValueError? ==>
              d.line < |lines| && ParseLine(lines[d.line]).None? && forall i | 0 <= i < d.line :: ParseLine(lines[i]).Some?
  {
    var parsed := seq(|lines|, i requires 0 <= i < |lines| => ParseLine(lines[i]));
    assert forall i | 0 <= i < |lines| :: parsed[i] == ParseLine(lines[i]);
    Collect(parsed)
  }

  /**
   * The loop of `hex_to_bmp` over the lines `readlines` returned: strip, parse, append.
   * The first line that does not parse raises, so no pixel list is produced.
   */
  method HexToBmp(lines: seq<string>) returns (res: Decoded)
    ensures res == DecodeLines(lines)
  {
    var pixels: seq<Rgb> := [];
    var i := 0;
    while i < |lines|
      invariant 0 <= i <= |lines| && |pixels| == i
      invariant forall k | 0 <= k < i :: ParseLine(lines[k]) == Some(pixels[k])
    {
      var p := ParseLine(lines[i]);
      if p.None? {
        return ValueError(i);
      }
      pixels := pixels + [p.value];
      i := i + 1;
    }
    res := Parsed(pixels);
    assert DecodeLines(lines).Parsed?;
  }

  /** Round trip over a whole file: decoding the records written for some pixels gives those pixels back. */
  lemma DecodeEncoded(pixels: seq<Rgb>, lines: seq<string>)
    requires |lines| == |pixels|
    requires forall k | 0 <= k < |lines| :: lines[k] == HexEncoder.FormatRecord(pixels[k])
    ensures DecodeLines(lines) == Parsed(pixels)
  {
    forall k | 0 <= k < |lines|
      ensures ParseLine(lines[k]) == Some(pixels[k])
    {
      ParseRecord(pixels[k]);
    }
    DecodeAllParsed(lines, pixels);
  }

  /** When every line parses, decoding yields exactly the parsed pixels, in order. */
  lemma DecodeAllParsed(lines: seq<string>, pixels: seq<Rgb>)
    requires |lines| == |pixels|
    requires forall k | 0 <= k < |lines| :: ParseLine(lines[k]) == Some(pixels[k])
    ensures DecodeLines(lines) == Parsed(pixels)
  {
    var d := DecodeLines(lines);
    if d.Parsed? {
      assert d.pixels == pixels;
    }
  }
}
