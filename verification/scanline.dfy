/** The scanline converter (`convert_line_format_2d`): turns one row of a
    row-pointer buffer into the canonical interleaved row the JPEG encoder
    consumes, RGB triples or, for grayscale, one luma byte per pixel. */
module Scanline {
  import opened CTypes

  /** `pixformat_t`, restricted to the layouts the converter distinguishes.
      Every other layout behaves as `Jpeg` does here: no branch matches and
      the destination row is left as it was. */
  datatype PixelFormat = Jpeg | Grayscale | Rgb888 | Rgb565 | Yuv422

  datatype Rgb = Rgb(r: byte, g: byte, b: byte)

  /** The foreign colour-space conversion `yuv2rgb(y, u, v, &r, &g, &b)`. */
  type Yuv2Rgb = (byte, byte, byte) -> Rgb

  /** Channels per output pixel, as `convert_image_2d` chooses them. */
  function Channels(format: PixelFormat): nat {
    if format == Grayscale then 1 else 3
  }

  /** How many bytes of the source row the converter reads for `width` pixels. */
  function SourceRowBytes(format: PixelFormat, width: nat): nat {
    match format
    case Jpeg => 0
    case Grayscale => width
    case Rgb888 => 3 * width
    case Rgb565 => 2 * width
    case Yuv422 => 2 * width
  }

  /** A row the converter can read without running off its end. YUV422 rows
      must have an even width (see the odd-width lemmas below). */
  predicate RowReadable(row: seq<byte>, format: PixelFormat, width: nat) {
    |row| >= SourceRowBytes(format, width) && (format == Yuv422 ==> width % 2 == 0)
  }

  /** The first `height` rows of a row-pointer buffer are all readable. */
  predicate RowsReadable(src: seq<seq<byte>>, format: PixelFormat, width: nat, height: nat) {
    height <= |src| && forall i :: 0 <= i < height ==> RowReadable(src[i], format, width)
  }

  /** Pixel `k` of an interleaved RGB row. */
  function PixelAt(s: seq<byte>, k: nat): Rgb
    requires 3 * k + 3 <= |s|
  {
    Rgb(s[3 * k], s[3 * k + 1], s[3 * k + 2])
  }

  function PixelBytes(px: Rgb): (s: seq<byte>)
    ensures |s| == 3 && PixelAt(s, 0) == px
  {
    [px.r, px.g, px.b]
  }

  /** Appending one pixel keeps the earlier pixels and places the new one last. */
  lemma PixelAtAppend(s: seq<byte>, px: Rgb, k: nat)
    requires |s| % 3 == 0 && 3 * k + 3 <= |s| + 3
    ensures PixelAt(s + PixelBytes(px), k) == if 3 * k + 3 <= |s| then PixelAt(s, k) else px
  {
    if 3 * k + 3 > |s| {
      assert 3 * k == |s|;
    }
  }

  /** Appending pixel `n` to a row of `n` pixels. */
  lemma AppendPixel(prefix: seq<byte>, px: Rgb, n: nat)
    requires |prefix| == 3 * n
    ensures |prefix + PixelBytes(px)| == 3 * n + 3
    ensures forall k :: 0 <= k < n ==> PixelAt(prefix + PixelBytes(px), k) == PixelAt(prefix, k)
    ensures PixelAt(prefix + PixelBytes(px), n) == px
  {
    forall k | 0 <= k <= n
      ensures PixelAt(prefix + PixelBytes(px), k) == if k < n then PixelAt(prefix, k) else px
    {
      PixelAtAppend(prefix, px, k);
    }
  }

  // ---------------------------------------------------------------------------
  // RGB888: byte-triple reversal
  // ---------------------------------------------------------------------------

  /** A source pixel stored blue first: the triple read back to front. */
  function Reversed(px: Rgb): Rgb {
    Rgb(px.b, px.g, px.r)
  }

  function Rgb888Line(row: seq<byte>, width: nat): (dst: seq<byte>)
    requires |row| >= 3 * width
    ensures |dst| == 3 * width
    ensures forall k :: 0 <= k < width ==> PixelAt(dst, k) == Reversed(PixelAt(row, k))
  {
    if width == 0 then []
    else
      var prefix := Rgb888Line(row, width - 1);
      var px := Reversed(PixelAt(row, width - 1));
      AppendPixel(prefix, px, width - 1);
      prefix + PixelBytes(px)
  }

  /** Two rows of interleaved pixels are equal when all their pixels are. */
  lemma PixelwiseEqual(a: seq<byte>, b: seq<byte>, width: nat)
    requires |a| == 3 * width && |b| == 3 * width
    requires forall k :: 0 <= k < width ==> PixelAt(a, k) == PixelAt(b, k)
    ensures a == b
  {
    forall i | 0 <= i < |a|
      ensures a[i] == b[i]
    {
      var k := i / 3;
      assert PixelAt(a, k) == PixelAt(b, k);
    }
  }

  /** Reversing the triples twice gives the row back. */
  lemma Rgb888Involution(row: seq<byte>, width: nat)
    requires |row| >= 3 * width
    ensures Rgb888Line(Rgb888Line(row, width), width) == row[..3 * width]
  {
    var once := Rgb888Line(row, width);
    var twice := Rgb888Line(once, width);
    forall k | 0 <= k < width
      ensures PixelAt(twice, k) == PixelAt(row[..3 * width], k)
    {
      assert PixelAt(row[..3 * width], k) == PixelAt(row, k);
    }
    PixelwiseEqual(twice, row[..3 * width], width);
  }

  // ---------------------------------------------------------------------------
  // RGB565: 5-6-5 unpacking
  // ---------------------------------------------------------------------------

  /** One RGB565 pixel stored high byte first. Each component is computed as C
      does, in the promoted (wider) integer type; the conversion back to a
      byte is checked to lose nothing, so every component is at most 255. The
      low bits the 5-6-5 layout cannot carry are always zero. */
  function Rgb565Pixel(b0: byte, b1: byte): (px: Rgb)
    ensures px.r & 0x07 == 0 && px.g & 0x03 == 0 && px.b & 0x07 == 0
  {
    var r := (b0 as bv16) & 0xF8;
    var g := ((b0 as bv16 & 0x07) << 5) | ((b1 as bv16 & 0xE0) >> 3);
    var b := (b1 as bv16 & 0x1F) << 3;
    Rgb(r as bv8, g as bv8, b as bv8)
  }

  /** The textbook reading of a 16-bit RGB565 word: red in bits 15..11, green
      in 10..5, blue in 4..0, each shifted up to the top of its byte. */
  function Unpack565(w: bv16): Rgb {
    Rgb(((w >> 11) << 3) as bv8, (((w >> 5) & 0x3F) << 2) as bv8, ((w & 0x1F) << 3) as bv8)
  }

  /** The inverse: keep the top 5, 6 and 5 bits of red, green and blue. */
  function Pack565(px: Rgb): bv16 {
    ((px.r as bv16 >> 3) << 11) | ((px.g as bv16 >> 2) << 5) | (px.b as bv16 >> 3)
  }

  /** The converter reads each byte pair as a big-endian RGB565 word. */
  lemma Rgb565IsBigEndianWord(b0: byte, b1: byte)
    ensures Rgb565Pixel(b0, b1) == Unpack565(((b0 as bv16) << 8) | (b1 as bv16))
  {
  }

  /** No information is lost: the source pair can be recovered from the pixel. */
  lemma Rgb565RoundTrip(b0: byte, b1: byte)
    ensures Pack565(Rgb565Pixel(b0, b1)) == ((b0 as bv16) << 8) | (b1 as bv16)
  {
  }

  function Rgb565Line(row: seq<byte>, width: nat): (dst: seq<byte>)
    requires |row| >= 2 * width
    ensures |dst| == 3 * width
    ensures forall k :: 0 <= k < width ==> PixelAt(dst, k) == Rgb565Pixel(row[2 * k], row[2 * k + 1])
  {
    if width == 0 then []
    else
      var prefix := Rgb565Line(row, width - 1);
      var k := width - 1;
      var px := Rgb565Pixel(row[2 * k], row[2 * k + 1]);
      AppendPixel(prefix, px, k);
      prefix + PixelBytes(px)
  }

  // ---------------------------------------------------------------------------
  // YUV422: four source bytes (Y0 U Y1 V) become two RGB pixels
  // ---------------------------------------------------------------------------

  /** The two output pixels of pair `j`: both share the pair's chroma. */
  predicate PairDecoded(dst: seq<byte>, row: seq<byte>, j: nat, yuv: Yuv2Rgb)
    requires 6 * j + 6 <= |dst| && 4 * j + 4 <= |row|
  {
    && PixelAt(dst, 2 * j) == yuv(row[4 * j], row[4 * j + 1], row[4 * j + 3])
    && PixelAt(dst, 2 * j + 1) == yuv(row[4 * j + 2], row[4 * j + 1], row[4 * j + 3])
  }

  /** The conversion of `pairs` Y0-U-Y1-V groups, one loop turn of the source each. */
  function Yuv422Pairs(row: seq<byte>, pairs: nat, yuv: Yuv2Rgb): (dst: seq<byte>)
    requires |row| >= 4 * pairs
    ensures |dst| == 6 * pairs
    ensures forall j :: 0 <= j < pairs ==> PairDecoded(dst, row, j, yuv)
  {
    if pairs == 0 then []
    else
      var prefix := Yuv422Pairs(row, pairs - 1, yuv);
      var j := pairs - 1;
      var p0 := yuv(row[4 * j], row[4 * j + 1], row[4 * j + 3]);
      var p1 := yuv(row[4 * j + 2], row[4 * j + 1], row[4 * j + 3]);
      AppendPair(prefix, row, j, yuv);
      prefix + PixelBytes(p0) + PixelBytes(p1)
  }

  /** Appending the decoded pair `j` to the first `j` decoded pairs. */
  lemma AppendPair(prefix: seq<byte>, row: seq<byte>, j: nat, yuv: Yuv2Rgb)
    requires |prefix| == 6 * j && |row| >= 4 * j + 4
    requires forall i :: 0 <= i < j ==> PairDecoded(prefix, row, i, yuv)
    ensures var dst := prefix + PixelBytes(yuv(row[4 * j], row[4 * j + 1], row[4 * j + 3]))
                               + PixelBytes(yuv(row[4 * j + 2], row[4 * j + 1], row[4 * j + 3]));
      |dst| == 6 * j + 6 && forall i :: 0 <= i <= j ==> PairDecoded(dst, row, i, yuv)
  {
    var p0 := yuv(row[4 * j], row[4 * j + 1], row[4 * j + 3]);
    var p1 := yuv(row[4 * j + 2], row[4 * j + 1], row[4 * j + 3]);
    var mid := prefix + PixelBytes(p0);
    AppendPixel(prefix, p0, 2 * j);
    AppendPixel(mid, p1, 2 * j + 1);
    forall i | 0 <= i <= j
      ensures PairDecoded(mid + PixelBytes(p1), row, i, yuv)
    {
      if i < j {
        assert PairDecoded(prefix, row, i, yuv);
      }
    }
  }

  /** The row converter for YUV422, for the even widths it is correct on. */
  function Yuv422Line(row: seq<byte>, width: nat, yuv: Yuv2Rgb): (dst: seq<byte>)
    requires |row| >= 2 * width && width % 2 == 0
    ensures |dst| == 3 * width
    ensures forall j :: 0 <= j < width / 2 ==> PairDecoded(dst, row, j, yuv)
  {
    Yuv422Pairs(row, width / 2, yuv)
  }

  /** Two pixels of one pair with equal luma come out identical. */
  lemma Yuv422EqualLumaEqualPixels(row: seq<byte>, width: nat, yuv: Yuv2Rgb, j: nat)
    requires |row| >= 2 * width && width % 2 == 0 && j < width / 2
    requires row[4 * j] == row[4 * j + 2]
    ensures PixelAt(Yuv422Line(row, width, yuv), 2 * j) == PixelAt(Yuv422Line(row, width, yuv), 2 * j + 1)
  {
    assert PairDecoded(Yuv422Line(row, width, yuv), row, j, yuv);
  }

  /** How many bytes the source's YUV422 loop writes: one six-byte group for
      every `i` in 0, 4, 8, ... below `2 * width`. */
  function Yuv422LoopWrites(width: nat): nat {
    6 * ((2 * width + 3) / 4)
  }

  /** The loop as written, for any width: it runs `ceil(width / 2)` turns. */
  function Yuv422LineAsWritten(row: seq<byte>, width: nat, yuv: Yuv2Rgb): (dst: seq<byte>)
    requires |row| >= 4 * ((2 * width + 3) / 4)
    ensures |dst| == Yuv422LoopWrites(width)
  {
    Yuv422Pairs(row, (2 * width + 3) / 4, yuv)
  }

  /** For an odd width the loop writes three bytes past the `width * 3` bytes
      of the scratch row, and reads two bytes past the `2 * width` of the
      source row. */
  lemma Yuv422OddWidthOverruns(row: seq<byte>, width: nat, yuv: Yuv2Rgb)
    requires width % 2 == 1 && |row| >= 2 * width + 2
    ensures 4 * ((2 * width + 3) / 4) == 2 * width + 2
    ensures |Yuv422LineAsWritten(row, width, yuv)| == 3 * width + 3
  {
    var k := width / 2;
    assert width == 2 * k + 1;
    assert 2 * width + 3 == 4 * (k + 1) + 1;
    assert (2 * width + 3) / 4 == k + 1;
  }

  /** The smallest witness: a one-pixel-wide row produces two pixels. */
  lemma Yuv422OneByOneOverruns(row: seq<byte>, yuv: Yuv2Rgb)
    requires |row| >= 4
    ensures |Yuv422LineAsWritten(row, 1, yuv)| == 6 > 3 * 1
  {
  }

  /** For even widths the loop as written and the corrected converter agree. */
  lemma Yuv422EvenWidthAgrees(row: seq<byte>, width: nat, yuv: Yuv2Rgb)
    requires |row| >= 2 * width && width % 2 == 0
    ensures Yuv422LineAsWritten(row, width, yuv) == Yuv422Line(row, width, yuv)
  {
    assert (2 * width + 3) / 4 == width / 2;
  }

  // ---------------------------------------------------------------------------
  // The dispatcher
  // ---------------------------------------------------------------------------

  /** `convert_line_format_2d(src, format, dst, width, in_channels, line)`:
      `src` is the row-pointer buffer, `scratch` the destination row's
      current contents. A format with no branch leaves the row untouched. */
  function ConvertLine(src: seq<seq<byte>>, format: PixelFormat, width: nat, line: nat,
                       scratch: seq<byte>, yuv: Yuv2Rgb): (dst: seq<byte>)
    requires line < |src| && RowReadable(src[line], format, width)
    ensures format != Jpeg ==> |dst| == width * Channels(format)
    ensures format == Jpeg ==> dst == scratch
    ensures format == Grayscale ==> dst == src[line][..width]
    ensures format == Rgb888 ==>
      forall k :: 0 <= k < width ==> PixelAt(dst, k) == Reversed(PixelAt(src[line], k))
    ensures format == Rgb565 ==>
      forall k :: 0 <= k < width ==> PixelAt(dst, k) == Rgb565Pixel(src[line][2 * k], src[line][2 * k + 1])
    ensures format == Yuv422 ==>
      forall j :: 0 <= j < width / 2 ==> PairDecoded(dst, src[line], j, yuv)
  {
    var row := src[line];
    match format
    case Jpeg => scratch
    case Grayscale => row[..width]
    case Rgb888 => Rgb888Line(row, width)
    case Rgb565 => Rgb565Line(row, width)
    case Yuv422 => Yuv422Line(row, width, yuv)
  }

  /** Every converting branch overwrites the whole row, so the previous
      contents of the scratch row never leak into the output. */
  lemma ConvertLineIgnoresScratch(src: seq<seq<byte>>, format: PixelFormat, width: nat, line: nat,
                                  s1: seq<byte>, s2: seq<byte>, yuv: Yuv2Rgb)
    requires line < |src| && RowReadable(src[line], format, width)
    requires format != Jpeg
    ensures ConvertLine(src, format, width, line, s1, yuv) == ConvertLine(src, format, width, line, s2, yuv)
  {
  }
}
