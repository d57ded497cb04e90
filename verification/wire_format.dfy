/** The multipart wire format of the MJPEG stream: the boundary token, the
    response content type, the per-part delimiter and the two part headers,
    together with `%u` decimal formatting and the fixed 64-byte `snprintf`
    buffer the length-known header is formatted into. */
module WireFormat {
  import opened CTypes

  /** `PART_BOUNDARY` */
  const PartBoundary: string := "123456789000000000000987654321"

  /** `_STREAM_CONTENT_TYPE`, sent once per connection. */
  const StreamContentType: string := "multipart/x-mixed-replace;boundary=" + PartBoundary

  /** `_STREAM_BOUNDARY`, sent before every part. */
  const StreamBoundary: string := "\r\n--" + PartBoundary + "\r\n"

  /** The first header line of both part headers. */
  const ContentTypeLine: string := "Content-Type: image/jpeg\r\n"

  /** The fixed text of `_STREAM_PART` before its `%u` conversion. */
  const StreamPartPrefix: string := ContentTypeLine + "Content-Length: "

  const BlankLine: string := "\r\n\r\n"

  /** `_STREAM_PART_CHUNKED`: the part header for a body of unknown length. */
  const StreamPartChunked: string := ContentTypeLine + TransferEncodingLines

  /** The rest of `_STREAM_PART_CHUNKED` after its first line. */
  const TransferEncodingLines: string := "Transfer-Encoding: chunked\r\n\r\n"

  /** Size of `part_buf` in both handlers. */
  const PART_BUF_LEN: nat := 64

  // ---------------------------------------------------------------------------
  // Decimal formatting (`%u`) and its inverse
  // ---------------------------------------------------------------------------

  predicate IsDigit(c: char) {
    '0' <= c <= '9'
  }

  predicate IsDigits(s: string) {
    forall i :: 0 <= i < |s| ==> IsDigit(s[i])
  }

  function DigitChar(d: nat): (c: char)
    requires d < 10
    ensures IsDigit(c)
  {
    ('0' as int + d) as char
  }

  function DigitValue(c: char): (d: nat)
    requires IsDigit(c)
    ensures d < 10
    ensures DigitChar(d) == c
  {
    c as int - '0' as int
  }

  /** `%u`: the shortest decimal rendering of `n`. */
  function Decimal(n: nat): (s: string)
    ensures |s| >= 1
    ensures IsDigits(s)
    ensures s[0] == '0' ==> n == 0
  {
    if n < 10 then [DigitChar(n)] else Decimal(n / 10) + [DigitChar(n % 10)]
  }

  /** Reads a string of digits back as a number, as a client parsing a header would. */
  function ParseDecimal(s: string): nat
    requires IsDigits(s)
  {
    if |s| == 0 then 0 else ParseDecimal(s[..|s| - 1]) * 10 + DigitValue(s[|s| - 1])
  }

  lemma {:induction false} DecimalRoundTrip(n: nat)
    ensures ParseDecimal(Decimal(n)) == n
    decreases n
  {
    var s := Decimal(n);
    if n >= 10 {
      DecimalRoundTrip(n / 10);
      assert s[..|s| - 1] == Decimal(n / 10);
    }
  }

  function Pow10(k: nat): (p: nat)
    ensures p >= 1
  {
    if k == 0 then 1 else 10 * Pow10(k - 1)
  }

  /** A number below 10^k needs at most k digits. */
  lemma {:induction false} DecimalLength(n: nat, k: nat)
    requires k >= 1 && n < Pow10(k)
    ensures |Decimal(n)| <= k
    decreases n
  {
    if n >= 10 {
      assert n / 10 < Pow10(k - 1);
      DecimalLength(n / 10, k - 1);
    }
  }

  // ---------------------------------------------------------------------------
  // Part headers
  // ---------------------------------------------------------------------------

  /** `_STREAM_PART` with its `%u` filled in. */
  function StreamPart(n: nat): string {
    StreamPartPrefix + Decimal(n) + BlankLine
  }

  /** Any `size_t` renders into at most 56 header bytes. */
  lemma PartHeaderBound(n: nat)
    requires n < SIZE_T_MOD
    ensures |StreamPart(n)| <= 56
  {
    assert Pow10(10) == 10000000000;
    DecimalLength(n, 10);
  }

  /** What `snprintf(buf, size, ...)` leaves: the text in the buffer (at most
      `size - 1` characters before the terminating NUL) and its return value,
      the length the full text would have had. */
  datatype Formatted = Formatted(text: string, ret: nat)

  function Snprintf(size: nat, s: string): (f: Formatted)
    requires size >= 1
    ensures f.ret == |s|
    ensures |f.text| < size
    ensures f.text <= s
    ensures |s| < size ==> f.text == s
    ensures |s| >= size ==> |f.text| == size - 1
  {
    Formatted(s[..Min(|s|, size - 1)], |s|)
  }

  /** The bytes the handlers send for a length-known part header: `hlen` bytes
      of `part_buf` after `snprintf(part_buf, 64, _STREAM_PART, n)`. Because
      every `size_t` fits, the sent header is never truncated. */
  function PartHeader(n: nat): (h: string)
    requires n < SIZE_T_MOD
    ensures h == StreamPart(n)
    ensures |h| < PART_BUF_LEN
  {
    PartHeaderBound(n);
    var f := Snprintf(PART_BUF_LEN, StreamPart(n));
    f.text[..f.ret]
  }

  // ---------------------------------------------------------------------------
  // Reading the format back, as a client does
  // ---------------------------------------------------------------------------

  predicate EndsWithBlankLine(s: string) {
    |s| >= |BlankLine| && s[|s| - |BlankLine|..] == BlankLine
  }

  /** The header field name of the length-known part header. */
  const ContentLengthField: string := "Content-Length"

  /** Whether `key` occurs in `s` starting at position `k`. */
  predicate MatchesAt(s: string, key: string, k: nat) {
    k + |key| <= |s| && s[k..k + |key|] == key
  }

  /** Whether `key` occurs anywhere in `s`. */
  predicate Occurs(s: string, key: string) {
    exists k: nat :: k <= |s| && MatchesAt(s, key, k)
  }

  /** The Content-Length a client reads from a part header, if it has one. */
  function ContentLength(h: string): Option<nat> {
    if |h| >= |StreamPartPrefix| + |BlankLine| && h[..|StreamPartPrefix|] == StreamPartPrefix
       && EndsWithBlankLine(h) && IsDigits(h[|StreamPartPrefix|..|h| - |BlankLine|])
    then Some(ParseDecimal(h[|StreamPartPrefix|..|h| - |BlankLine|]))
    else None
  }

  /** A client reads back exactly the length that was formatted. */
  lemma PartHeaderAnnouncesLength(n: nat)
    ensures EndsWithBlankLine(StreamPart(n))
    ensures ContentLength(StreamPart(n)) == Some(n)
    ensures Occurs(StreamPart(n), ContentLengthField)
  {
    var h := StreamPart(n);
    assert h[..|StreamPartPrefix|] == StreamPartPrefix;
    assert h[|StreamPartPrefix|..|h| - |BlankLine|] == Decimal(n);
    assert h[|h| - |BlankLine|..] == BlankLine;
    DecimalRoundTrip(n);
    assert MatchesAt(h, ContentLengthField, 26);
  }

  /** The chunked part header also ends the header block, but has no
      Content-Length field anywhere, so a client reads no length from it. */
  lemma ChunkedHeaderHasNoLength()
    ensures EndsWithBlankLine(StreamPartChunked)
    ensures !Occurs(StreamPartChunked, ContentLengthField)
    ensures ContentLength(StreamPartChunked) == None
  {
    var h := StreamPartChunked;
    var key := ContentLengthField;
    forall k: nat | k + |key| <= |h|
      ensures !MatchesAt(h, key, k)
    {
      if k == 0 {
        assert h[8] == ContentTypeLine[8] == 'T' && key[8] == 'L';
        assert h[k..k + |key|][8] != key[8];
      } else {
        if k < |ContentTypeLine| {
          assert h[k] == ContentTypeLine[k];
        } else {
          assert h[k] == TransferEncodingLines[k - |ContentTypeLine|];
        }
        assert h[k..k + |key|][0] != key[0];
      }
    }
    assert h[..|StreamPartPrefix|] != StreamPartPrefix by {
      assert h[26] == 'T';
      assert StreamPartPrefix[26] == 'C';
    }
  }

  /** The first position at or after `i` where `key` occurs in `s`. */
  function Find(s: string, key: string, i: nat): (r: Option<nat>)
    requires |key| >= 1
    ensures r.Some? ==> i <= r.value && r.value + |key| <= |s| && s[r.value..r.value + |key|] == key
    ensures r.Some? ==> forall k: nat :: i <= k < r.value ==> !MatchesAt(s, key, k)
    ensures r.None? ==> forall k: nat :: i <= k ==> !MatchesAt(s, key, k)
    decreases |s| - i
  {
    if i + |key| > |s| then None
    else if s[i..i + |key|] == key then Some(i)
    else Find(s, key, i + 1)
  }

  const BoundaryKey: string := "boundary="

  /** The delimiter a client derives from a `multipart/...; boundary=` content
      type: CRLF, two hyphens, the boundary value, CRLF (section 5.1.1 of
      RFC 2046; the value here runs to the end of the header). */
  function DelimiterFor(contentType: string): Option<string> {
    match Find(contentType, BoundaryKey, 0)
    case None => None
    case Some(i) => Some("\r\n--" + contentType[i + |BoundaryKey|..] + "\r\n")
  }

  /** `Find` skips positions whose first character cannot start the key. */
  lemma {:induction false} FindSkips(s: string, key: string, i: nat, j: nat)
    requires |key| >= 1 && i <= j <= |s|
    requires forall k :: i <= k < j ==> s[k] != key[0]
    ensures Find(s, key, i) == Find(s, key, j)
    decreases j - i
  {
    if i < j {
      if i + |key| <= |s| {
        assert s[i..i + |key|][0] == s[i];
      }
      FindSkips(s, key, i + 1, j);
    }
  }

  /** The content type and the per-part delimiter name the same token. */
  lemma ContentTypeMatchesDelimiter()
    ensures DelimiterFor(StreamContentType) == Some(StreamBoundary)
  {
    var ct := StreamContentType;
    assert ct[26..35] == BoundaryKey;
    assert ct[35..] == PartBoundary;
    forall k | 0 <= k < 26
      ensures ct[k] != 'b'
    {
      assert ct[k] == "multipart/x-mixed-replace;"[k];
    }
    FindSkips(ct, BoundaryKey, 0, 26);
  }

  /** A boundary of 1 to 70 characters, none of them CR or LF, not ending in a
      space (section 5.1.1 of RFC 2046). */
  predicate ValidBoundary(b: string) {
    1 <= |b| <= 70 && b[|b| - 1] != ' ' && forall i :: 0 <= i < |b| ==> b[i] != '\r' && b[i] != '\n'
  }

  lemma PartBoundaryIsValid()
    ensures ValidBoundary(PartBoundary)
    ensures IsDigits(PartBoundary)
  {
  }
}
