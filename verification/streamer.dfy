/** The MJPEG streamer: the frame slot `setFrame` publishes into, the two
    per-connection handler loops (length-delimited and chunked), the chunk
    callback `jpg_encode_stream`, and the frame-time bookkeeping. The HTTP
    transport is a log of attempted writes whose outcomes come from an
    oracle indexed by the write's position; the clock is an oracle indexed by
    how many times it has been read. */
module Streamer {
  import opened CTypes
  import opened WireFormat
  import opened Scanline
  import opened Sinks
  import opened Pipeline

  // ---------------------------------------------------------------------------
  // The streamer object and setFrame
  // ---------------------------------------------------------------------------

  /** `frame_buffer`: NULL, or the memory it points to, read as row pointers
      when the frame is row-addressed. */
  datatype FrameRef = NullFrame | FrameAt(rows: seq<seq<byte>>)

  /** The fields of an `MjpegStreamer` this core reads and writes. */
  datatype MjpegStreamer = MjpegStreamer(
    frameBuffer: FrameRef,
    frameBufferSize: nat,
    frameBufferFormat: PixelFormat,
    frameBufferWidth: nat,
    frameBufferHeight: nat,
    frameBufferLineFormat2d: bool,
    jpegBuffer: BufRef,
    jpegBufferSize: nat,
    initialized: bool,
    serverPort: nat,
    streamingModeChunked: bool)
  {
    /** Every field fits its C type. */
    predicate Valid() {
      && frameBufferSize < SIZE_T_MOD && jpegBufferSize < SIZE_T_MOD
      && frameBufferWidth < SIZE_T_MOD && frameBufferHeight < SIZE_T_MOD
      && serverPort < UINT16_MOD
    }

    /** A row-addressed frame that needs encoding has the rows the converter
        reads, at the `uint16_t` width and height `toJpeg` receives. */
    predicate FrameReadable() {
      frameBuffer.FrameAt? && frameBufferFormat != Jpeg && frameBufferLineFormat2d ==>
        RowsReadable(frameBuffer.rows, frameBufferFormat, ToUint16(frameBufferWidth), ToUint16(frameBufferHeight))
    }

    predicate Streamable() {
      Valid() && FrameReadable()
    }
  }

  /** The two request handlers `init` can register. */
  datatype Handler = BufferedHandler | ChunkedHandler

  /** The handler `init` registers: the chunked flag alone decides. */
  function HandlerOf(s: MjpegStreamer): (h: Handler)
    ensures h == ChunkedHandler <==> s.streamingModeChunked
  {
    if s.streamingModeChunked then ChunkedHandler else BufferedHandler
  }

  /** `MjpegStreamer(server_port = 80, streaming_mode_chunked = false)`. The
      pointer and size fields get no initialiser in the source; they are
      modelled as zero, as for an object in static storage. */
  function NewMjpegStreamer(serverPort: nat := 80, streamingModeChunked: bool := false): (s: MjpegStreamer)
    requires serverPort < UINT16_MOD
    ensures s.Streamable()
    ensures s.serverPort == serverPort && s.streamingModeChunked == streamingModeChunked
    ensures !s.initialized && s.frameBuffer == NullFrame
  {
    MjpegStreamer(NullFrame, 0, Jpeg, 0, 0, false, NullBuf, 0, false, serverPort, streamingModeChunked)
  }

  /** With no arguments the streamer listens on port 80 and registers the
      length-delimited handler. */
  lemma DefaultStreamer()
    ensures NewMjpegStreamer().serverPort == 80
    ensures HandlerOf(NewMjpegStreamer()) == BufferedHandler
    ensures HandlerOf(NewMjpegStreamer(80, true)) == ChunkedHandler
  {
  }

  /** `setFrame(format, frame, width, height, line_format_2d)`: overwrites the
      frame fields and leaves everything else alone. The size is
      `width * height * sizeof(Color)` in 32-bit unsigned arithmetic;
      `colorSize` is `sizeof(Color)`. Always returns `ESP_OK`. */
  function SetFrame(s: MjpegStreamer, format: PixelFormat, frame: FrameRef, width: nat, height: nat,
                    lineFormat2d: bool, colorSize: nat): (r: (MjpegStreamer, EspErr))
    requires s.Valid() && width < SIZE_T_MOD && height < SIZE_T_MOD
    ensures r.1 == ESP_OK
    ensures r.0.Valid()
    ensures r.0.frameBuffer == frame && r.0.frameBufferFormat == format && r.0.frameBufferLineFormat2d == lineFormat2d
    ensures r.0.frameBufferWidth == width && r.0.frameBufferHeight == height
    ensures r.0.frameBufferSize == (width * height * colorSize) % SIZE_T_MOD
    ensures r.0.jpegBuffer == s.jpegBuffer && r.0.jpegBufferSize == s.jpegBufferSize
    ensures r.0.initialized == s.initialized && r.0.serverPort == s.serverPort
    ensures r.0.streamingModeChunked == s.streamingModeChunked
  {
    var area := (width * height) % SIZE_T_MOD;
    var size := (area * colorSize) % SIZE_T_MOD;
    MulModSizeT(width * height, colorSize);
    (s.(frameBuffer := frame, frameBufferSize := size, frameBufferLineFormat2d := lineFormat2d,
        frameBufferFormat := format, frameBufferWidth := width, frameBufferHeight := height), ESP_OK)
  }

  /** The last `setFrame` wins: publishing twice is publishing the second frame. */
  lemma SetFrameLastWins(s: MjpegStreamer, f1: PixelFormat, p1: FrameRef, w1: nat, h1: nat, l1: bool,
                         f2: PixelFormat, p2: FrameRef, w2: nat, h2: nat, l2: bool, colorSize: nat)
    requires s.Valid() && w1 < SIZE_T_MOD && h1 < SIZE_T_MOD && w2 < SIZE_T_MOD && h2 < SIZE_T_MOD
    ensures SetFrame(SetFrame(s, f1, p1, w1, h1, l1, colorSize).0, f2, p2, w2, h2, l2, colorSize)
         == SetFrame(s, f2, p2, w2, h2, l2, colorSize)
  {
  }

  // ---------------------------------------------------------------------------
  // The transport
  // ---------------------------------------------------------------------------

  /** What one `httpd_resp_send_chunk` call sends: the part delimiter, the
      length-known part header for `size` bytes, the chunked part header,
      `len` bytes of a buffer, raw encoder bytes, or the NULL zero-length
      chunk that ends a chunked body. */
  datatype Payload =
    | Boundary
    | LengthHeader(size: nat)
    | ChunkedHeader
    | Body(buf: BufRef, len: nat)
    | Bytes(data: seq<byte>)
    | FinalChunk

  /** The text of a header write; a length-known header is the `hlen` bytes
      `snprintf` left in `part_buf`. Body writes carry no text. */
  function HeaderText(p: Payload): (t: string)
    requires p.LengthHeader? ==> p.size < SIZE_T_MOD
    ensures |t| < PART_BUF_LEN
  {
    match p
    case Boundary => StreamBoundary
    case LengthHeader(n) => PartHeader(n)
    case ChunkedHeader => StreamPartChunked
    case _ => []
  }

  /** What a client makes of the header writes: the delimiter is the one the
      content type announces, and each part header ends the header block,
      carrying the formatted length or, in chunked mode, no Content-Length
      field at all. */
  lemma HeadersAsParsed(n: nat)
    requires n < SIZE_T_MOD
    ensures DelimiterFor(StreamContentType) == Some(HeaderText(Boundary))
    ensures EndsWithBlankLine(HeaderText(LengthHeader(n))) && ContentLength(HeaderText(LengthHeader(n))) == Some(n)
    ensures EndsWithBlankLine(HeaderText(ChunkedHeader)) && ContentLength(HeaderText(ChunkedHeader)) == None
    ensures Occurs(HeaderText(LengthHeader(n)), ContentLengthField)
    ensures !Occurs(HeaderText(ChunkedHeader), ContentLengthField)
  {
    ContentTypeMatchesDelimiter();
    PartHeaderAnnouncesLength(n);
    ChunkedHeaderHasNoLength();
  }

  /** One attempted write and the `esp_err_t` it returned. */
  datatype Write = Write(payload: Payload, status: EspErr)

  /** The transport's answer to the n-th write of the connection. */
  type Outcomes = nat -> EspErr

  /** `httpd_resp_send_chunk`: the write is logged with the outcome the
      transport gives it. */
  function Send(log: seq<Write>, outcomes: Outcomes, p: Payload): (r: (seq<Write>, EspErr))
    ensures r.1 == outcomes(|log|)
    ensures r.0 == log + [Write(p, r.1)]
  {
    (log + [Write(p, outcomes(|log|))], outcomes(|log|))
  }

  /** `written` is what a chain of `if (res == ESP_OK) res = send(...)` over
      `ps` produced: the writes go out in order, each only after all earlier
      ones succeeded, and `res` is the status of the last one attempted. */
  predicate GatedPrefix(written: seq<Write>, ps: seq<Payload>, res: EspErr, base: nat, outcomes: Outcomes) {
    && 1 <= |written| <= |ps|
    && (forall i :: 0 <= i < |written| ==> written[i] == Write(ps[i], outcomes(base + i)))
    && (forall i :: 0 <= i < |written| - 1 ==> written[i].status == ESP_OK)
    && (|written| < |ps| ==> written[|written| - 1].status != ESP_OK)
    && res == written[|written| - 1].status
  }

  /** Sends `ps` one after the other, stopping at the first failure. */
  function GatedSends(log: seq<Write>, outcomes: Outcomes, ps: seq<Payload>): (r: (seq<Write>, EspErr))
    requires |ps| >= 1
    ensures |r.0| >= |log| && r.0[..|log|] == log
    ensures GatedPrefix(r.0[|log|..], ps, r.1, |log|, outcomes)
    decreases |ps|
  {
    var (log1, res) := Send(log, outcomes, ps[0]);
    if res != ESP_OK || |ps| == 1 then (log1, res)
    else
      var r := GatedSends(log1, outcomes, ps[1..]);
      assert r.0[..|log|] == log by {
        assert r.0[..|log1|][..|log|] == log;
      }
      assert r.0[|log|..][0] == Write(ps[0], res);
      assert r.0[|log|..][1..] == r.0[|log1|..];
      (r.0, r.1)
  }

  // ---------------------------------------------------------------------------
  // jpg_encode_stream
  // ---------------------------------------------------------------------------

  /** `jpg_chunking_t`: the request (its write log) and the byte count. */
  datatype JChunk = JChunk(len: nat, log: seq<Write>)

  /** How a chunk produced by the encoder goes out on the transport. */
  function PayloadOf(c: Chunk): Payload {
    match c
    case EndOfImage => FinalChunk
    case Data(b) => Bytes(b)
  }

  function PayloadLen(p: Payload): nat {
    match p
    case Boundary => |StreamBoundary|
    case LengthHeader(n) => |StreamPart(n)|
    case ChunkedHeader => |StreamPartChunked|
    case Body(_, n) => n
    case Bytes(b) => |b|
    case FinalChunk => 0
  }

  /** `jpg_encode_stream(arg, index, data, len)`: index 0 resets the count;
      the chunk is sent; a failed send returns 0 and leaves the count alone,
      a successful one adds `len` to it and returns `len`. */
  function JpgEncodeStream(outcomes: Outcomes, j: JChunk, index: nat, c: Chunk): (r: (JChunk, nat))
    ensures r.0.log == j.log + [Write(PayloadOf(c), outcomes(|j.log|))]
    ensures var start := if index == 0 then 0 else j.len;
      && (outcomes(|j.log|) != ESP_OK ==> r.1 == 0 && r.0.len == start)
      && (outcomes(|j.log|) == ESP_OK ==> r.1 == ChunkLen(c) && r.0.len == AddSizeT(start, ChunkLen(c)))
  {
    var j1 := if index == 0 then j.(len := 0) else j;
    var (log', status) := Send(j1.log, outcomes, PayloadOf(c));
    if status != ESP_OK then (j1.(log := log'), 0)
    else (JChunk(AddSizeT(j1.len, ChunkLen(c)), log'), ChunkLen(c))
  }

  function EncodeCallback(outcomes: Outcomes): Callback<JChunk> {
    (j: JChunk, index: nat, c: Chunk) => JpgEncodeStream(outcomes, j, index, c)
  }

  /** Bytes of the writes in `ws` the transport accepted. */
  function SentBytes(ws: seq<Write>): nat {
    if |ws| == 0 then 0
    else (if ws[0].status == ESP_OK then PayloadLen(ws[0].payload) else 0) + SentBytes(ws[1..])
  }

  /** The writes the callback makes for `chunks`, starting at write position `base`. */
  function Forwarded(chunks: seq<Chunk>, base: nat, outcomes: Outcomes): (ws: seq<Write>)
    ensures |ws| == |chunks|
    ensures forall i :: 0 <= i < |chunks| ==> ws[i] == Write(PayloadOf(chunks[i]), outcomes(base + i))
  {
    seq(|chunks|, i requires 0 <= i < |chunks| => Write(PayloadOf(chunks[i]), outcomes(base + i)))
  }

  lemma ForwardedCons(chunks: seq<Chunk>, base: nat, outcomes: Outcomes)
    requires |chunks| >= 1
    ensures Forwarded(chunks, base, outcomes)
         == [Write(PayloadOf(chunks[0]), outcomes(base))] + Forwarded(chunks[1..], base + 1, outcomes)
  {
    var rest := Forwarded(chunks[1..], base + 1, outcomes);
    var ws := [Write(PayloadOf(chunks[0]), outcomes(base))] + rest;
    forall i | 0 <= i < |chunks|
      ensures Forwarded(chunks, base, outcomes)[i] == ws[i]
    {
      if i > 0 {
        assert ws[i] == rest[i - 1];
      }
    }
  }

  /** One `put_buf` on the callback stream is one `jpg_encode_stream` call,
      which logs one write and keeps the count equal to the index. */
  lemma CallbackStep(outcomes: Outcomes, j: JChunk, index: nat, chunks: seq<Chunk>)
    requires j.len == index < SIZE_T_MOD && |chunks| >= 1
    ensures var (j1, n) := JpgEncodeStream(outcomes, j, index, chunks[0]);
      && j1.len == AddSizeT(index, n)
      && j1.log == j.log + [Write(PayloadOf(chunks[0]), outcomes(|j.log|))]
      && n == (if outcomes(|j.log|) == ESP_OK then PayloadLen(PayloadOf(chunks[0])) else 0)
      && PutAll(CallbackSink(CallbackStream(j, index)), EncodeCallback(outcomes), chunks).0
         == PutAll(CallbackSink(CallbackStream(j1, AddSizeT(index, n))), EncodeCallback(outcomes), chunks[1..]).0
  {
  }

  /** The bookkeeping of one forwarded chunk, combined with that of the rest. */
  lemma ForwardedStep(outcomes: Outcomes, log: seq<Write>, index: nat, n: nat, chunks: seq<Chunk>,
                      finalLog: seq<Write>, finalIndex: nat)
    requires |chunks| >= 1
    requires n == (if outcomes(|log|) == ESP_OK then PayloadLen(PayloadOf(chunks[0])) else 0)
    requires finalLog == (log + [Write(PayloadOf(chunks[0]), outcomes(|log|))]) + Forwarded(chunks[1..], |log| + 1, outcomes)
    requires finalIndex == AddSizeT(AddSizeT(index, n), SentBytes(Forwarded(chunks[1..], |log| + 1, outcomes)))
    ensures finalLog == log + Forwarded(chunks, |log|, outcomes)
    ensures finalIndex == AddSizeT(index, SentBytes(Forwarded(chunks, |log|, outcomes)))
  {
    var w0 := Write(PayloadOf(chunks[0]), outcomes(|log|));
    var rest := Forwarded(chunks[1..], |log| + 1, outcomes);
    ForwardedCons(chunks, |log|, outcomes);
    ConcatAssoc(log, [w0], rest);
    SentBytesCons(w0, rest);
    AddSizeTAssoc(index, n, SentBytes(rest));
  }

  lemma SentBytesCons(w: Write, rest: seq<Write>)
    ensures SentBytes([w] + rest) == (if w.status == ESP_OK then PayloadLen(w.payload) else 0) + SentBytes(rest)
  {
    assert ([w] + rest)[1..] == rest;
  }

  /** Driving `jpg_encode_stream` through a callback stream: every chunk is
      forwarded as one write, in order; and the count kept in
      `jpg_chunking_t` stays equal to the stream's index, which grows by the
      bytes of exactly the writes that succeeded. */
  lemma {:induction false} EncodeStreamCounts(outcomes: Outcomes, j: JChunk, index: nat, chunks: seq<Chunk>)
    requires j.len == index < SIZE_T_MOD
    ensures var r := PutAll(CallbackSink(CallbackStream(j, index)), EncodeCallback(outcomes), chunks).0;
      && r.CallbackSink?
      && r.stream.oarg.log == j.log + Forwarded(chunks, |j.log|, outcomes)
      && r.stream.oarg.len == r.stream.index
      && r.stream.index == AddSizeT(index, SentBytes(Forwarded(chunks, |j.log|, outcomes)))
    decreases |chunks|
  {
    if |chunks| == 0 {
      assert j.log + Forwarded(chunks, |j.log|, outcomes) == j.log;
    } else {
      var (j1, n) := JpgEncodeStream(outcomes, j, index, chunks[0]);
      CallbackStep(outcomes, j, index, chunks);
      EncodeStreamCounts(outcomes, j1, AddSizeT(index, n), chunks[1..]);
      var rr := PutAll(CallbackSink(CallbackStream(j1, AddSizeT(index, n))), EncodeCallback(outcomes), chunks[1..]).0;
      ForwardedStep(outcomes, j.log, index, n, chunks, rr.stream.oarg.log, rr.stream.index);
    }
  }

  // ---------------------------------------------------------------------------
  // One turn of the handler loops
  // ---------------------------------------------------------------------------

  /** The quality both handlers encode at. */
  const STREAM_QUALITY: nat := 80

  /** One turn of a handler loop: its `res`, the streamer afterwards, the
      connection's write log afterwards, and the buffer passed to `free`. */
  datatype Iteration = Iteration(res: EspErr, state: MjpegStreamer, log: seq<Write>, freed: Option<BufRef>)

  /** The frame fields are only read by the handlers. */
  predicate SameFrame(a: MjpegStreamer, b: MjpegStreamer) {
    a == b.(jpegBuffer := a.jpegBuffer, jpegBufferSize := a.jpegBufferSize)
  }

  /** `toJpeg` as `stream_httpd_handler` calls it. */
  function EncodeFrame(s: MjpegStreamer, env: EncodeEnv): ToJpegResult
    requires s.Streamable() && s.frameBuffer.FrameAt? && s.frameBufferFormat != Jpeg && env.Valid()
  {
    ToJpeg(s.frameBuffer.rows, s.frameBufferSize, ToUint16(s.frameBufferWidth), ToUint16(s.frameBufferHeight),
           s.frameBufferFormat, STREAM_QUALITY, s.jpegBuffer, s.jpegBufferSize, s.frameBufferLineFormat2d, env)
  }

  /** The three writes of a length-delimited part. */
  function LengthKnownPart(buf: BufRef, size: nat): seq<Payload> {
    [Boundary, LengthHeader(size), Body(buf, size)]
  }

  /** A length-delimited turn for an already-JPEG frame: the frame buffer
      becomes `jpeg_buffer` and is sent as it is; it is never freed. */
  function BufferedJpegTurn(s: MjpegStreamer, log: seq<Write>, outcomes: Outcomes): (it: Iteration)
    requires s.Streamable() && s.frameBuffer.FrameAt? && s.frameBufferFormat == Jpeg
    ensures it.state == s.(jpegBuffer := FrameBuf(s.frameBuffer.rows), jpegBufferSize := s.frameBufferSize)
    ensures it.freed.None?
    ensures |it.log| >= |log| && it.log[..|log|] == log
    ensures GatedPrefix(it.log[|log|..], LengthKnownPart(FrameBuf(s.frameBuffer.rows), s.frameBufferSize), it.res, |log|, outcomes)
  {
    var s1 := s.(jpegBufferSize := s.frameBufferSize, jpegBuffer := FrameBuf(s.frameBuffer.rows));
    var (log1, res1) := GatedSends(log, outcomes, LengthKnownPart(s1.jpegBuffer, s1.jpegBufferSize));
    Iteration(res1, s1, log1, None)
  }

  /** A length-delimited turn for a frame that needs encoding. A failed
      conversion writes nothing and leaves `jpeg_buffer` as it was; a
      successful one sends the new buffer with its exact length. Either way
      `jpeg_buffer` is freed afterwards. */
  function BufferedEncodeTurn(s: MjpegStreamer, log: seq<Write>, outcomes: Outcomes, env: EncodeEnv): (it: Iteration)
    requires s.Streamable() && env.Valid() && s.frameBuffer.FrameAt? && s.frameBufferFormat != Jpeg
    ensures SameFrame(s, it.state) && it.state.jpegBufferSize < SIZE_T_MOD
    ensures it.freed == Some(it.state.jpegBuffer)
    ensures !EncodeFrame(s, env).ok ==> it == Iteration(ESP_FAIL, s, log, Some(s.jpegBuffer))
    ensures EncodeFrame(s, env).ok ==>
      && it.state.jpegBuffer == EncodeFrame(s, env).out && it.state.jpegBufferSize == EncodeFrame(s, env).outLen
      && it.state.jpegBuffer.HeapBuf? && it.state.jpegBuffer.id == env.jpgBufId
      && it.state.jpegBufferSize == |it.state.jpegBuffer.bytes|
      && |it.log| >= |log| && it.log[..|log|] == log
      && GatedPrefix(it.log[|log|..], LengthKnownPart(it.state.jpegBuffer, it.state.jpegBufferSize), it.res, |log|, outcomes)
  {
    var t := EncodeFrame(s, env);
    var s1 := s.(jpegBuffer := t.out, jpegBufferSize := t.outLen);
    if !t.ok then Iteration(ESP_FAIL, s1, log, Some(s1.jpegBuffer))
    else
      var (log1, res1) := GatedSends(log, outcomes, LengthKnownPart(s1.jpegBuffer, s1.jpegBufferSize));
      Iteration(res1, s1, log1, Some(s1.jpegBuffer))
  }

  /** One turn of `stream_httpd_handler`'s loop: a missing frame fails before
      anything is written. */
  function BufferedIteration(s: MjpegStreamer, log: seq<Write>, outcomes: Outcomes, env: EncodeEnv): (it: Iteration)
    requires s.Streamable() && env.Valid()
    ensures it.state.Streamable() && SameFrame(s, it.state)
    ensures |it.log| >= |log| && it.log[..|log|] == log
    ensures s.frameBuffer.NullFrame? ==> it == Iteration(ESP_FAIL, s, log, None)
    ensures s.frameBuffer.FrameAt? && s.frameBufferFormat == Jpeg ==> it == BufferedJpegTurn(s, log, outcomes)
    ensures s.frameBuffer.FrameAt? && s.frameBufferFormat != Jpeg ==> it == BufferedEncodeTurn(s, log, outcomes, env)
  {
    match s.frameBuffer
    case NullFrame => Iteration(ESP_FAIL, s, log, None)
    case FrameAt(_) =>
      if s.frameBufferFormat == Jpeg then BufferedJpegTurn(s, log, outcomes)
      else BufferedEncodeTurn(s, log, outcomes, env)
  }

  /** `toJpeg_cb` as `stream_chunked_httpd_handler` calls it, with a fresh
      `jpg_chunking_t` over the connection's log. */
  function EncodeFrameChunked(s: MjpegStreamer, log: seq<Write>, outcomes: Outcomes, env: EncodeEnv): ToJpegCbResult<JChunk>
    requires s.Streamable() && s.frameBuffer.FrameAt? && s.frameBufferFormat != Jpeg
  {
    ToJpegCb(s.frameBuffer.rows, s.frameBufferSize, ToUint16(s.frameBufferWidth), ToUint16(s.frameBufferHeight),
             s.frameBufferFormat, STREAM_QUALITY, EncodeCallback(outcomes), JChunk(0, log), s.frameBufferLineFormat2d, env)
  }

  /** The rest of a chunked turn for a frame that needs encoding, after the
      boundary and header writes left `log1` and `res1`: the frame is encoded
      whatever those writes returned, every encoder chunk is forwarded as one
      write, the count of accepted bytes becomes `jpeg_buffer_size`, one
      zero-length chunk ends the body whatever happened, and `jpeg_buffer` is
      freed although nothing was allocated into it. Failed body writes do
      not fail the turn; a failed encoding does. */
  function ChunkedEncodeTail(s: MjpegStreamer, log1: seq<Write>, res1: EspErr, outcomes: Outcomes, env: EncodeEnv): (it: Iteration)
    requires s.Streamable() && s.frameBuffer.FrameAt? && s.frameBufferFormat != Jpeg
    ensures var e := EncodeFrameChunked(s, log1, outcomes, env);
      var fwd := Forwarded(e.emitted, |log1|, outcomes);
      && it.log == log1 + fwd + [Write(FinalChunk, outcomes(|log1| + |fwd|))]
      && it.res == (if e.ok then res1 else ESP_FAIL)
      && it.state == s.(jpegBufferSize := AddSizeT(0, SentBytes(fwd)))
      && it.freed == Some(s.jpegBuffer)
  {
    var e := EncodeFrameChunked(s, log1, outcomes, env);
    EncodeStreamCounts(outcomes, JChunk(0, log1), 0, e.emitted);
    var s1 := s.(jpegBufferSize := e.arg.len);
    var res2 := if !e.ok then ESP_FAIL else res1;
    var (log2, _) := Send(e.arg.log, outcomes, FinalChunk);
    Iteration(res2, s1, log2, Some(s.jpegBuffer))
  }

  /** The rest of a chunked turn for an already-JPEG frame: the frame buffer
      becomes `jpeg_buffer`, and its bytes are sent if the header writes
      succeeded. */
  function ChunkedJpegTail(s: MjpegStreamer, log: seq<Write>, log1: seq<Write>, res1: EspErr, outcomes: Outcomes,
                           header: seq<Payload>): (it: Iteration)
    requires s.Streamable() && s.frameBuffer.FrameAt? && s.frameBufferFormat == Jpeg
    requires |log1| >= |log| && log1[..|log|] == log && |header| == 2
    requires GatedPrefix(log1[|log|..], header, res1, |log|, outcomes)
    ensures it.state == s.(jpegBuffer := FrameBuf(s.frameBuffer.rows), jpegBufferSize := s.frameBufferSize)
    ensures it.freed.None?
    ensures |it.log| >= |log| && it.log[..|log|] == log
    ensures GatedPrefix(it.log[|log|..], header + [Body(FrameBuf(s.frameBuffer.rows), s.frameBufferSize)], it.res, |log|, outcomes)
  {
    var s1 := s.(jpegBufferSize := s.frameBufferSize, jpegBuffer := FrameBuf(s.frameBuffer.rows));
    if res1 == ESP_OK then
      var (l, st) := Send(log1, outcomes, Body(FrameBuf(s.frameBuffer.rows), s1.jpegBufferSize));
      assert l[|log|..] == log1[|log|..] + [Write(Body(FrameBuf(s.frameBuffer.rows), s1.jpegBufferSize), st)];
      assert l[..|log|] == log1[..|log|];
      Iteration(st, s1, l, None)
    else
      Iteration(res1, s1, log1, None)
  }

  /** One turn of `stream_chunked_httpd_handler`'s loop. */
  function ChunkedIteration(s: MjpegStreamer, log: seq<Write>, outcomes: Outcomes, env: EncodeEnv): (it: Iteration)
    requires s.Streamable() && env.Valid()
    ensures it.state.Streamable() && SameFrame(s, it.state)
    ensures |it.log| >= |log| && it.log[..|log|] == log
    ensures s.frameBuffer.NullFrame? ==> it == Iteration(ESP_FAIL, s, log, None)
    // an already-JPEG frame: the Content-Length is the size held BEFORE this turn
    ensures s.frameBuffer.FrameAt? && s.frameBufferFormat == Jpeg ==>
      && it.state.jpegBuffer == FrameBuf(s.frameBuffer.rows) && it.state.jpegBufferSize == s.frameBufferSize
      && it.freed.None?
      && GatedPrefix(it.log[|log|..],
                     [Boundary, LengthHeader(s.jpegBufferSize), Body(FrameBuf(s.frameBuffer.rows), s.frameBufferSize)],
                     it.res, |log|, outcomes)
    // any other frame: the boundary and the chunked header, gated, then the rest
    ensures s.frameBuffer.FrameAt? && s.frameBufferFormat != Jpeg ==>
      var (log1, res1) := GatedSends(log, outcomes, [Boundary, ChunkedHeader]);
      it == ChunkedEncodeTail(s, log1, res1, outcomes, env)
  {
    match s.frameBuffer
    case NullFrame => Iteration(ESP_FAIL, s, log, None)
    case FrameAt(rows) =>
      if s.frameBufferFormat != Jpeg then
        var (log1, res1) := GatedSends(log, outcomes, [Boundary, ChunkedHeader]);
        var it := ChunkedEncodeTail(s, log1, res1, outcomes, env);
        assert it.log[..|log|] == log by {
          assert it.log[..|log1|] == log1;
        }
        it
      else
        var header := [Boundary, LengthHeader(s.jpegBufferSize)];
        var (log1, res1) := GatedSends(log, outcomes, header);
        ChunkedJpegTail(s, log, log1, res1, outcomes, header)
  }

  /** One turn of whichever handler is registered. */
  function Iterate(s: MjpegStreamer, log: seq<Write>, outcomes: Outcomes, env: EncodeEnv): (it: Iteration)
    requires s.Streamable() && env.Valid()
    ensures it.state.Streamable() && SameFrame(s, it.state)
    ensures |it.log| >= |log| && it.log[..|log|] == log
  {
    match HandlerOf(s)
    case BufferedHandler => BufferedIteration(s, log, outcomes, env)
    case ChunkedHandler => ChunkedIteration(s, log, outcomes, env)
  }

  // ---------------------------------------------------------------------------
  // The handler loop and frame-time bookkeeping
  // ---------------------------------------------------------------------------

  /** Everything a connection depends on outside the core: the result of
      `httpd_resp_set_type`, the transport's write outcomes, the clock
      (`esp_timer_get_time`, indexed by read), and per loop turn the
      encoding environment. */
  datatype Connection = Connection(setTypeResult: EspErr, outcomes: Outcomes, clock: nat -> int, env: nat -> EncodeEnv)

  /** A handler run observed for a bounded number of loop turns: `exit` is
      the returned result, or `None` if the loop is still running; `freed`
      lists every buffer passed to `free`; `frameTimes` the `frame_time`
      values in milliseconds. */
  datatype Session = Session(exit: Option<EspErr>, state: MjpegStreamer, lastFrame: int, log: seq<Write>,
                             freed: seq<BufRef>, frameTimes: seq<int>)

  /** The `frame_time` of a successful turn: microseconds since the previous
      `last_frame`, divided by 1000 as C does. */
  function FrameTime(frEnd: int, lastFrame: int): (ms: int)
    ensures frEnd >= lastFrame ==> ms == (frEnd - lastFrame) / 1000
  {
    CDivAgreesOnNonNegative(if frEnd >= lastFrame then frEnd - lastFrame else 0, 1000);
    CDiv(frEnd - lastFrame, 1000)
  }

  /** The frame times of `n` successful turns whose clock readings start at
      read number `start`, the first measured from `last`. */
  function ClockTimes(clock: nat -> int, last: int, start: nat, n: nat): (ts: seq<int>)
    ensures |ts| == n
    decreases n
  {
    if n == 0 then [] else [FrameTime(clock(start), last)] + ClockTimes(clock, clock(start), start + 1, n - 1)
  }

  /** Each frame time is measured from the reading of the turn before; the
      first from `last_frame`. */
  lemma {:induction false} ClockTimesAt(clock: nat -> int, last: int, start: nat, n: nat, k: nat)
    requires k < n
    ensures ClockTimes(clock, last, start, n)[k]
         == FrameTime(clock(start + k), if k == 0 then last else clock(start + k - 1))
    decreases k
  {
    if k > 0 {
      ClockTimesAt(clock, clock(start), start + 1, n - 1, k - 1);
    }
  }

  ghost predicate EnvsValid(conn: Connection) {
    forall i :: conn.env(i).Valid()
  }

  /** The body of a handler loop up to the `if (res != ESP_OK) break;`: given
      the streamer, the write log and the turn number, one `Iteration`. */
  type TurnFn = (MjpegStreamer, seq<Write>, nat) --> Iteration

  /** What the loop relies on of a turn: it can run on any streamer that fits
      its C types and has a readable frame, keeps it so, leaves the frame
      fields alone, and only appends to the log. */
  ghost predicate WellBehaved(f: TurnFn) {
    forall st: MjpegStreamer, log: seq<Write>, t: nat | st.Streamable() ::
      && f.requires(st, log, t)
      && f(st, log, t).state.Streamable() && SameFrame(st, f(st, log, t).state)
      && |f(st, log, t).log| >= |log| && f(st, log, t).log[..|log|] == log
  }

  /** The turn of whichever handler the streamer registered, on connection `conn`. */
  function HandlerTurn(conn: Connection): (f: TurnFn)
    requires EnvsValid(conn)
    ensures WellBehaved(f)
  {
    (st: MjpegStreamer, log: seq<Write>, t: nat) requires st.Streamable() => Iterate(st, log, conn.outcomes, conn.env(t))
  }

  /** The turns a loop starting from `s`, `log` and turn number `turn` runs
      within `n` turns: each on the state and log the previous one left, the
      next only after one that returned `ESP_OK`. */
  function Trace(turnFn: TurnFn, s: MjpegStreamer, log: seq<Write>, turn: nat, n: nat): (its: seq<Iteration>)
    requires s.Streamable() && WellBehaved(turnFn)
    ensures |its| <= n
    decreases n
  {
    if n == 0 then []
    else
      var it := turnFn(s, log, turn);
      [it] + (if it.res != ESP_OK then [] else Trace(turnFn, it.state, it.log, turn + 1, n - 1))
  }

  /** Every turn of `its` but the last returned `ESP_OK`. */
  predicate OkBeforeLast(its: seq<Iteration>) {
    forall i :: 0 <= i < |its| - 1 ==> its[i].res == ESP_OK
  }

  /** A successful turn in front of a run that failed at most at its end
      keeps it so. */
  lemma OkBeforeLastCons(it: Iteration, rest: seq<Iteration>)
    requires it.res == ESP_OK && OkBeforeLast(rest)
    ensures OkBeforeLast([it] + rest)
  {
    forall i | 0 < i < |rest|
      ensures ([it] + rest)[i].res == ESP_OK
    {
      assert ([it] + rest)[i] == rest[i - 1];
    }
  }

  /** Within a trace every turn but the last returned `ESP_OK`. */
  lemma {:induction false} TraceRunsOnSuccess(turnFn: TurnFn, s: MjpegStreamer, log: seq<Write>, turn: nat, n: nat)
    requires s.Streamable() && WellBehaved(turnFn)
    ensures OkBeforeLast(Trace(turnFn, s, log, turn, n))
    decreases n
  {
    if n > 0 {
      var it := turnFn(s, log, turn);
      if it.res == ESP_OK {
        TraceRunsOnSuccess(turnFn, it.state, it.log, turn + 1, n - 1);
        OkBeforeLastCons(it, Trace(turnFn, it.state, it.log, turn + 1, n - 1));
      }
    }
  }

  /** A trace shorter than its bound ends with a failed turn. */
  lemma {:induction false} TraceStopsAtFailure(turnFn: TurnFn, s: MjpegStreamer, log: seq<Write>, turn: nat, n: nat)
    requires s.Streamable() && WellBehaved(turnFn)
    ensures var its := Trace(turnFn, s, log, turn, n);
      |its| < n ==> |its| > 0 && its[|its| - 1].res != ESP_OK
    decreases n
  {
    if n > 0 {
      var it := turnFn(s, log, turn);
      if it.res == ESP_OK {
        TraceStopsAtFailure(turnFn, it.state, it.log, turn + 1, n - 1);
        var rest := Trace(turnFn, it.state, it.log, turn + 1, n - 1);
        var its := Trace(turnFn, s, log, turn, n);
        assert its == [it] + rest;
        LastOfCons(it, rest);
      }
    }
  }

  /** Each turn of `its` after the first ran on the state and log the turn
      before it left, numbering the turns from `turn`. */
  ghost predicate Chained(turnFn: TurnFn, its: seq<Iteration>, turn: nat)
    requires WellBehaved(turnFn)
  {
    forall i :: 0 <= i < |its| - 1 ==>
      its[i].state.Streamable() && its[i + 1] == turnFn(its[i].state, its[i].log, turn + i + 1)
  }

  /** Chaining survives putting the turn that leads into a chained run in
      front of it. */
  lemma ChainedCons(turnFn: TurnFn, it: Iteration, rest: seq<Iteration>, turn: nat)
    requires WellBehaved(turnFn) && it.state.Streamable()
    requires |rest| > 0 ==> rest[0] == turnFn(it.state, it.log, turn + 1)
    requires Chained(turnFn, rest, turn + 1)
    ensures Chained(turnFn, [it] + rest, turn)
  {
    var its := [it] + rest;
    forall i | 0 <= i < |its| - 1
      ensures its[i].state.Streamable() && its[i + 1] == turnFn(its[i].state, its[i].log, turn + i + 1)
    {
      assert its[i + 1] == rest[i];
      if i > 0 {
        assert its[i] == rest[i - 1];
      }
    }
  }

  /** A trace starts with the turn on the initial state and log, and every
      later turn ran on the state and log the turn before it left, which
      the streamer's invariant still holds for. */
  lemma {:induction false} TraceChains(turnFn: TurnFn, s: MjpegStreamer, log: seq<Write>, turn: nat, n: nat)
    requires s.Streamable() && WellBehaved(turnFn)
    ensures var its := Trace(turnFn, s, log, turn, n);
      && (n > 0 ==> |its| > 0 && its[0] == turnFn(s, log, turn))
      && Chained(turnFn, its, turn)
    decreases n
  {
    if n > 0 {
      var it := turnFn(s, log, turn);
      var its := Trace(turnFn, s, log, turn, n);
      if it.res != ESP_OK {
        assert its == [it];
      } else {
        TraceChains(turnFn, it.state, it.log, turn + 1, n - 1);
        ChainedCons(turnFn, it, Trace(turnFn, it.state, it.log, turn + 1, n - 1), turn);
      }
    }
  }

  /** The buffers a sequence of turns passes to `free`, in order. */
  function FreedBy(its: seq<Iteration>): seq<BufRef> {
    if |its| == 0 then []
    else (if its[0].freed.Some? then [its[0].freed.value] else []) + FreedBy(its[1..])
  }

  /** The `while (true)` loop, run for at most `fuel` more turns: a failed
      turn ends it with `last_frame` reset to 0; a successful one reads the
      clock and records the frame time. `clockReads` is how often the clock
      has been read, `turn` the index of the next turn. */
  function Loop(turnFn: TurnFn, clock: nat -> int, s: MjpegStreamer, last: int, clockReads: nat, turn: nat,
                log: seq<Write>, freed: seq<BufRef>, times: seq<int>, fuel: nat): (r: Session)
    requires s.Streamable() && WellBehaved(turnFn)
    ensures r.state.Streamable() && SameFrame(s, r.state)
    ensures |r.log| >= |log| && r.log[..|log|] == log
    ensures r.exit != Some(ESP_OK)
    ensures r.exit.Some? ==> r.lastFrame == 0
    ensures |times| <= |r.frameTimes| <= |times| + fuel
    ensures r.exit.None? ==> |r.frameTimes| == |times| + fuel
    decreases fuel
  {
    if fuel == 0 then Session(None, s, last, log, freed, times)
    else
      var it := turnFn(s, log, turn);
      var freed' := freed + (if it.freed.Some? then [it.freed.value] else []);
      if it.res != ESP_OK then Session(Some(it.res), it.state, 0, it.log, freed', times)
      else
        var frEnd := clock(clockReads);
        var r := Loop(turnFn, clock, it.state, frEnd, clockReads + 1, turn + 1, it.log, freed',
                      times + [FrameTime(frEnd, last)], fuel - 1);
        assert r.log[..|log|] == log by {
          assert r.log[..|it.log|][..|log|] == it.log[..|log|];
        }
        r
  }

  /** The frame times a run records are those of its successful turns, each
      measured from the clock reading before it, and a loop still running
      has `last_frame` equal to its last clock reading. */
  lemma {:induction false} LoopFrameTimes(turnFn: TurnFn, clock: nat -> int, s: MjpegStreamer, last: int,
                                          clockReads: nat, turn: nat, log: seq<Write>, freed: seq<BufRef>,
                                          times: seq<int>, fuel: nat)
    requires s.Streamable() && WellBehaved(turnFn)
    ensures var r := Loop(turnFn, clock, s, last, clockReads, turn, log, freed, times, fuel);
      && r.frameTimes == times + ClockTimes(clock, last, clockReads, |r.frameTimes| - |times|)
      && (r.exit.None? ==> r.lastFrame == (if fuel == 0 then last else clock(clockReads + fuel - 1)))
    decreases fuel
  {
    var r := Loop(turnFn, clock, s, last, clockReads, turn, log, freed, times, fuel);
    assert times + ClockTimes(clock, last, clockReads, 0) == times;
    if fuel > 0 {
      var it := turnFn(s, log, turn);
      if it.res == ESP_OK {
        var freed' := freed + (if it.freed.Some? then [it.freed.value] else []);
        var frEnd := clock(clockReads);
        var ft := FrameTime(frEnd, last);
        LoopFrameTimes(turnFn, clock, it.state, frEnd, clockReads + 1, turn + 1, it.log, freed', times + [ft], fuel - 1);
        var n := |r.frameTimes| - |times|;
        var rest := ClockTimes(clock, frEnd, clockReads + 1, n - 1);
        assert r.frameTimes == (times + [ft]) + rest;
        assert ClockTimes(clock, last, clockReads, n) == [ft] + rest;
        ConcatAssoc(times, [ft], rest);
      }
    }
  }

  /** The loop exits exactly when a turn of its trace fails, and returns that
      turn's result: every earlier turn returned `ESP_OK`. */
  lemma {:induction false} LoopExitsAtFailedTurn(turnFn: TurnFn, clock: nat -> int, s: MjpegStreamer, last: int,
                                                      clockReads: nat, turn: nat, log: seq<Write>, freed: seq<BufRef>,
                                                      times: seq<int>, fuel: nat)
    requires s.Streamable() && WellBehaved(turnFn)
    ensures var r := Loop(turnFn, clock, s, last, clockReads, turn, log, freed, times, fuel);
      var tr := Trace(turnFn, s, log, turn, fuel);
      && (r.exit.Some? <==> |tr| > 0 && tr[|tr| - 1].res != ESP_OK)
      && (r.exit.Some? ==> r.exit == Some(tr[|tr| - 1].res))
    decreases fuel
  {
    if fuel > 0 {
      var it := turnFn(s, log, turn);
      var tr := Trace(turnFn, s, log, turn, fuel);
      if it.res != ESP_OK {
        assert tr == [it];
      } else {
        var frEnd := clock(clockReads);
        var freed' := freed + (if it.freed.Some? then [it.freed.value] else []);
        var times' := times + [FrameTime(frEnd, last)];
        var rest := Trace(turnFn, it.state, it.log, turn + 1, fuel - 1);
        LoopExitsAtFailedTurn(turnFn, clock, it.state, frEnd, clockReads + 1, turn + 1, it.log, freed', times', fuel - 1);
        assert Loop(turnFn, clock, s, last, clockReads, turn, log, freed, times, fuel)
               == Loop(turnFn, clock, it.state, frEnd, clockReads + 1, turn + 1, it.log, freed', times', fuel - 1);
        assert tr == [it] + rest;
        LastOfCons(it, rest);
      }
    }
  }

  /** On exit the loop holds the state and log the failed turn left, and has
      recorded one frame time for each turn before it. */
  lemma {:induction false} LoopExitsWithFailedTurn(turnFn: TurnFn, clock: nat -> int, s: MjpegStreamer, last: int,
                                                        clockReads: nat, turn: nat, log: seq<Write>, freed: seq<BufRef>,
                                                        times: seq<int>, fuel: nat)
    requires s.Streamable() && WellBehaved(turnFn)
    ensures var r := Loop(turnFn, clock, s, last, clockReads, turn, log, freed, times, fuel);
      var tr := Trace(turnFn, s, log, turn, fuel);
      r.exit.Some? ==> |tr| > 0 && r.state == tr[|tr| - 1].state && r.log == tr[|tr| - 1].log
                       && |r.frameTimes| == |times| + |tr| - 1
    decreases fuel
  {
    if fuel > 0 {
      var it := turnFn(s, log, turn);
      var tr := Trace(turnFn, s, log, turn, fuel);
      if it.res != ESP_OK {
        assert tr == [it];
      } else {
        var frEnd := clock(clockReads);
        var freed' := freed + (if it.freed.Some? then [it.freed.value] else []);
        var times' := times + [FrameTime(frEnd, last)];
        var rest := Trace(turnFn, it.state, it.log, turn + 1, fuel - 1);
        LoopExitsWithFailedTurn(turnFn, clock, it.state, frEnd, clockReads + 1, turn + 1, it.log, freed', times', fuel - 1);
        assert Loop(turnFn, clock, s, last, clockReads, turn, log, freed, times, fuel)
               == Loop(turnFn, clock, it.state, frEnd, clockReads + 1, turn + 1, it.log, freed', times', fuel - 1);
        assert tr == [it] + rest;
        LastOfCons(it, rest);
      }
    }
  }

  /** A loop that has not exited ran all `fuel` turns of its trace and holds
      the state and log the last of them left. */
  lemma {:induction false} LoopRunsEveryTurn(turnFn: TurnFn, clock: nat -> int, s: MjpegStreamer, last: int,
                                                  clockReads: nat, turn: nat, log: seq<Write>, freed: seq<BufRef>,
                                                  times: seq<int>, fuel: nat)
    requires s.Streamable() && WellBehaved(turnFn)
    ensures var r := Loop(turnFn, clock, s, last, clockReads, turn, log, freed, times, fuel);
      var tr := Trace(turnFn, s, log, turn, fuel);
      r.exit.None? ==> |tr| == fuel && (fuel > 0 ==> r.state == tr[fuel - 1].state && r.log == tr[fuel - 1].log)
    decreases fuel
  {
    if fuel > 0 {
      var it := turnFn(s, log, turn);
      var tr := Trace(turnFn, s, log, turn, fuel);
      if it.res != ESP_OK {
        assert tr == [it];
      } else {
        var frEnd := clock(clockReads);
        var freed' := freed + (if it.freed.Some? then [it.freed.value] else []);
        var times' := times + [FrameTime(frEnd, last)];
        var rest := Trace(turnFn, it.state, it.log, turn + 1, fuel - 1);
        LoopRunsEveryTurn(turnFn, clock, it.state, frEnd, clockReads + 1, turn + 1, it.log, freed', times', fuel - 1);
        assert Loop(turnFn, clock, s, last, clockReads, turn, log, freed, times, fuel)
               == Loop(turnFn, clock, it.state, frEnd, clockReads + 1, turn + 1, it.log, freed', times', fuel - 1);
        assert tr == [it] + rest;
        LastOfCons(it, rest);
      }
    }
  }

  /** Every buffer a turn of the loop passes to `free` is recorded, in turn
      order. */
  lemma {:induction false} LoopRecordsFrees(turnFn: TurnFn, clock: nat -> int, s: MjpegStreamer, last: int,
                                            clockReads: nat, turn: nat, log: seq<Write>, freed: seq<BufRef>,
                                            times: seq<int>, fuel: nat)
    requires s.Streamable() && WellBehaved(turnFn)
    ensures Loop(turnFn, clock, s, last, clockReads, turn, log, freed, times, fuel).freed
            == freed + FreedBy(Trace(turnFn, s, log, turn, fuel))
    decreases fuel
  {
    var tr := Trace(turnFn, s, log, turn, fuel);
    if fuel == 0 {
      assert freed + FreedBy(tr) == freed;
    } else {
      var it := turnFn(s, log, turn);
      var f := if it.freed.Some? then [it.freed.value] else [];
      if it.res != ESP_OK {
        assert FreedBy(tr) == f + FreedBy([]);
      } else {
        var frEnd := clock(clockReads);
        var rest := Trace(turnFn, it.state, it.log, turn + 1, fuel - 1);
        LoopRecordsFrees(turnFn, clock, it.state, frEnd, clockReads + 1, turn + 1, it.log, freed + f,
                         times + [FrameTime(frEnd, last)], fuel - 1);
        assert tr == [it] + rest;
        assert tr[1..] == rest;
        ConcatAssoc(freed, f, FreedBy(rest));
      }
    }
  }

  /** A handler invocation: `last_frame` is initialised from the clock if it
      is 0; a failed `httpd_resp_set_type` returns at once (without resetting
      `last_frame`); otherwise the loop runs until a turn fails, when
      `last_frame` is reset to 0 and that turn's result returned. */
  function StreamHandler(s: MjpegStreamer, lastFrame: int, conn: Connection, turns: nat): (r: Session)
    requires s.Streamable() && EnvsValid(conn)
    ensures r.state.Streamable() && SameFrame(s, r.state)
    ensures r.exit != Some(ESP_OK)
    ensures conn.setTypeResult != ESP_OK ==>
      r == Session(Some(conn.setTypeResult), s, if lastFrame == 0 then conn.clock(0) else lastFrame, [], [], [])
    ensures conn.setTypeResult == ESP_OK && r.exit.Some? ==> r.lastFrame == 0
    ensures conn.setTypeResult == ESP_OK && r.exit.None? ==> |r.frameTimes| == turns
    ensures |r.frameTimes| <= turns
  {
    var (last0, clockReads0) := if lastFrame == 0 then (conn.clock(0), 1) else (lastFrame, 0);
    if conn.setTypeResult != ESP_OK then Session(Some(conn.setTypeResult), s, last0, [], [], [])
    else Loop(HandlerTurn(conn), conn.clock, s, last0, clockReads0, 0, [], [], [], turns)
  }

  /** `r` is how a run of the turns `tr`, bounded by `bound`, ends: with the
      result, state and log of the first turn that did not return `ESP_OK`,
      after one frame time for each turn before it; without a result only
      after `bound` successful turns. Every turn's `free` is recorded. */
  ghost predicate EndsAtFirstFailure(r: Session, tr: seq<Iteration>, bound: nat) {
    && (r.exit.Some? <==> |tr| > 0 && tr[|tr| - 1].res != ESP_OK)
    && (r.exit.Some? ==>
          && r.exit == Some(tr[|tr| - 1].res) && r.state == tr[|tr| - 1].state && r.log == tr[|tr| - 1].log
          && |r.frameTimes| == |tr| - 1
          && forall k :: 0 <= k < |tr| - 1 ==> tr[k].res == ESP_OK)
    && (r.exit.None? ==> |tr| == bound && forall k :: 0 <= k < |tr| ==> tr[k].res == ESP_OK)
    && r.freed == FreedBy(tr)
  }

  /** A loop started afresh ends at the first failing turn of its trace. */
  lemma LoopReturnsFailedTurn(turnFn: TurnFn, clock: nat -> int, s: MjpegStreamer, last: int, clockReads: nat, fuel: nat)
    requires s.Streamable() && WellBehaved(turnFn)
    ensures EndsAtFirstFailure(Loop(turnFn, clock, s, last, clockReads, 0, [], [], [], fuel),
                               Trace(turnFn, s, [], 0, fuel), fuel)
  {
    TraceRunsOnSuccess(turnFn, s, [], 0, fuel);
    LoopExitsAtFailedTurn(turnFn, clock, s, last, clockReads, 0, [], [], [], fuel);
    LoopExitsWithFailedTurn(turnFn, clock, s, last, clockReads, 0, [], [], [], fuel);
    LoopRunsEveryTurn(turnFn, clock, s, last, clockReads, 0, [], [], [], fuel);
    LoopRecordsFrees(turnFn, clock, s, last, clockReads, 0, [], [], [], fuel);
  }

  /** Once the content type is set, the handler returns the result of the
      first turn that does not return `ESP_OK`, with the connection's log as
      that turn left it, after recording one frame time per turn before it;
      it returns without a result only after `turns` successful turns. */
  lemma StreamHandlerReturnsFailedTurn(s: MjpegStreamer, lastFrame: int, conn: Connection, turns: nat)
    requires s.Streamable() && EnvsValid(conn) && conn.setTypeResult == ESP_OK
    ensures EndsAtFirstFailure(StreamHandler(s, lastFrame, conn, turns), Trace(HandlerTurn(conn), s, [], 0, turns), turns)
  {
    var (last0, clockReads0) := if lastFrame == 0 then (conn.clock(0), 1) else (lastFrame, 0);
    LoopReturnsFailedTurn(HandlerTurn(conn), conn.clock, s, last0, clockReads0, turns);
  }

  // ---------------------------------------------------------------------------
  // Consequences
  // ---------------------------------------------------------------------------

  /** With no frame published the first turn fails before any boundary,
      header or body is written. */
  lemma NullFrameWritesNothing(s: MjpegStreamer, lastFrame: int, conn: Connection, turns: nat)
    requires s.Streamable() && EnvsValid(conn) && s.frameBuffer.NullFrame?
    requires conn.setTypeResult == ESP_OK && turns >= 1
    ensures var r := StreamHandler(s, lastFrame, conn, turns);
      r.exit == Some(ESP_FAIL) && r.log == [] && r.lastFrame == 0 && r.freed == [] && r.frameTimes == []
  {
  }

  /** Two consecutive successful turns 40 ms apart give a frame time of 40 ms. */
  lemma FrameTimeExample()
    ensures FrameTime(1_040_000, 1_000_000) == 40
  {
  }

  /** A JPEG frame in chunked mode is announced with the length the PREVIOUS
      turn left in `jpeg_buffer_size`, while its body is `frame_buffer_size`
      bytes: a client is told the wrong length whenever they differ. */
  lemma ChunkedJpegAnnouncesStaleLength(s: MjpegStreamer, log: seq<Write>, outcomes: Outcomes, env: EncodeEnv)
    requires s.Streamable() && env.Valid()
    requires s.frameBuffer.FrameAt? && s.frameBufferFormat == Jpeg
    requires outcomes(|log|) == ESP_OK && outcomes(|log| + 1) == ESP_OK
    ensures var it := ChunkedIteration(s, log, outcomes, env);
      && |it.log| == |log| + 3
      && it.log[|log| + 1].payload == LengthHeader(s.jpegBufferSize)
      && ContentLength(HeaderText(it.log[|log| + 1].payload)) == Some(s.jpegBufferSize)
      && it.log[|log| + 2].payload == Body(FrameBuf(s.frameBuffer.rows), s.frameBufferSize)
  {
    var it := ChunkedIteration(s, log, outcomes, env);
    var w := it.log[|log|..];
    assert w[0].status == ESP_OK && w[1].status == ESP_OK;
    HeadersAsParsed(s.jpegBufferSize);
  }

  /** On the next turn with the same JPEG frame the length is right again. */
  lemma ChunkedJpegLengthCatchesUp(s: MjpegStreamer, log: seq<Write>, outcomes: Outcomes, env1: EncodeEnv, env2: EncodeEnv)
    requires s.Streamable() && env1.Valid() && env2.Valid()
    requires s.frameBuffer.FrameAt? && s.frameBufferFormat == Jpeg
    ensures var it1 := ChunkedIteration(s, log, outcomes, env1);
      var it2 := ChunkedIteration(it1.state, it1.log, outcomes, env2);
      var w := it2.log[|it1.log|..];
      && (outcomes(|it1.log|) == ESP_OK ==> |w| >= 2)
      && (|w| >= 2 ==> w[1].payload == LengthHeader(s.frameBufferSize))
  {
  }

  /** An end-of-image marker from the encoder (`put_buf(NULL, 0)`, which the
      memory stream expects) is forwarded by `jpg_encode_stream` as a
      zero-length chunk of its own, so a chunked body can carry a terminator
      before the one the handler sends last. */
  lemma ChunkedEndOfImageIsForwarded(s: MjpegStreamer, log1: seq<Write>, res1: EspErr, outcomes: Outcomes,
                                     env: EncodeEnv, k: nat)
    requires s.Streamable() && s.frameBuffer.FrameAt? && s.frameBufferFormat != Jpeg
    requires k < |EncodeFrameChunked(s, log1, outcomes, env).emitted|
    requires EncodeFrameChunked(s, log1, outcomes, env).emitted[k] == EndOfImage
    ensures var it := ChunkedEncodeTail(s, log1, res1, outcomes, env);
      && |log1| + k < |it.log| - 1
      && it.log[|log1| + k].payload == FinalChunk
      && it.log[|it.log| - 1].payload == FinalChunk
  {
    var e := EncodeFrameChunked(s, log1, outcomes, env);
    var fwd := Forwarded(e.emitted, |log1|, outcomes);
    var it := ChunkedEncodeTail(s, log1, res1, outcomes, env);
    assert it.log[|log1| + k] == fwd[k];
  }

  /** In length-delimited mode, a conversion that fails right after a
      successful one frees the buffer the successful turn already freed. */
  lemma BufferedFailureFreesTwice(s: MjpegStreamer, log: seq<Write>, outcomes: Outcomes, env1: EncodeEnv, env2: EncodeEnv)
    requires s.Streamable() && env1.Valid() && env2.Valid()
    requires s.frameBuffer.FrameAt? && s.frameBufferFormat != Jpeg
    requires EncodeFrame(s, env1).ok
    ensures var it1 := BufferedIteration(s, log, outcomes, env1);
      var it2 := BufferedIteration(it1.state, it1.log, outcomes, env2);
      !EncodeFrame(it1.state, env2).ok ==>
        it1.freed.Some? && it1.freed.value.HeapBuf? && it2.freed == it1.freed
  {
  }

  /** In chunked mode nothing is allocated for a non-JPEG frame, yet
      `jpeg_buffer` is freed; after a JPEG frame that is the buffer of the
      frame published before, while the new frame is the one being streamed. */
  lemma ChunkedFreesFrameAfterJpeg(s: MjpegStreamer, log: seq<Write>, outcomes: Outcomes, env1: EncodeEnv,
                                   env2: EncodeEnv, format: PixelFormat, frame: seq<seq<byte>>,
                                   width: nat, height: nat, colorSize: nat)
    requires s.Streamable() && env1.Valid() && env2.Valid()
    requires s.frameBuffer.FrameAt? && s.frameBufferFormat == Jpeg
    requires format != Jpeg && width < SIZE_T_MOD && height < SIZE_T_MOD
    requires RowsReadable(frame, format, ToUint16(width), ToUint16(height))
    ensures var it1 := ChunkedIteration(s, log, outcomes, env1);
      var s2 := SetFrame(it1.state, format, FrameAt(frame), width, height, true, colorSize).0;
      && s2.Streamable() && s2.frameBuffer == FrameAt(frame)
      && ChunkedIteration(s2, it1.log, outcomes, env2).freed == Some(FrameBuf(s.frameBuffer.rows))
  {
  }

  /** In chunked mode a transport that rejects every encoder chunk does not
      fail the turn: encoding still succeeds, and the turn's result is the
      header writes' result. */
  lemma ChunkedIgnoresBodyWriteFailures(s: MjpegStreamer, log: seq<Write>, outcomes: Outcomes, env: EncodeEnv)
    requires s.Streamable() && env.Valid()
    requires s.frameBuffer.FrameAt? && s.frameBufferFormat != Jpeg
    requires outcomes(|log|) == ESP_OK && outcomes(|log| + 1) == ESP_OK
    requires EncodeFrameChunked(s, log + [Write(Boundary, ESP_OK), Write(ChunkedHeader, ESP_OK)],
                                (n: nat) => ESP_FAIL, env).ok
    ensures ChunkedIteration(s, log, outcomes, env).res == ESP_OK
  {
    var (log1, res1) := GatedSends(log, outcomes, [Boundary, ChunkedHeader]);
    var w := log1[|log|..];
    assert log1 == log + w;
    assert w == [Write(Boundary, ESP_OK), Write(ChunkedHeader, ESP_OK)];
    ToJpegCbIgnoresCallback(s.frameBuffer.rows, s.frameBufferSize, ToUint16(s.frameBufferWidth),
                            ToUint16(s.frameBufferHeight), s.frameBufferFormat, STREAM_QUALITY,
                            EncodeCallback(outcomes), JChunk(0, log1),
                            EncodeCallback((n: nat) => ESP_FAIL), JChunk(0, log1),
                            s.frameBufferLineFormat2d, env);
  }
}
