# esp-mjpeg-streamer in Dafny

A model of the core of esp-mjpeg-streamer, an ESP32 component that serves
the most recently published camera frame as an MJPEG stream
(`multipart/x-mixed-replace`) over HTTP, with proofs about it. The model
covers these parts:

- **Frame publication.** `setFrame` stores the frame pointer, format,
  dimensions and row-addressing flag.
- **The two per-connection handler loops.**
  - `stream_httpd_handler` is length-delimited. It sends a boundary, a
    `Content-Length` part header and the whole body.
  - `stream_chunked_httpd_handler` sends non-JPEG frames as the encoder
    produces them, through `jpg_encode_stream`. It closes each body with a
    zero-length chunk.
- **Frame-time bookkeeping.** The handlers keep `last_frame` and compute the
  frame time with C's truncating division.
- **The wire format.** This covers the boundary token, the content type, the
  two part headers, and the `%u` rendering written into the 64-byte
  `part_buf`.
- **The JPEG conversion pipeline.**
  - `convert_line_format_2d` handles grayscale, RGB888, RGB565 and YUV422
    rows.
  - `convert_image_2d` runs the encoder protocol: init, scratch line, rows
    0..h-1, then the final NULL scanline.
  - It writes to two output streams. `memory_stream` truncates silently.
    `callback_stream` keeps a cumulative index.
  - `toJpeg` / `toJpeg_cb` choose between the row-pointer path and the
    flat-buffer path.

Modules follow the source layout:

| module | file | contents |
|---|---|---|
| `CTypes` | ctypes.dfy | bytes, 32-bit `size_t` arithmetic, `uint16_t` truncation, `esp_err_t`, C division |
| `WireFormat` | wire_format.dfy | the constants of `MjpegStreamer.h`, `%u`, `snprintf`, a client's reading of the headers |
| `Scanline` | scanline.dfy | `convert_line_format_2d` |
| `Sinks` | sinks.dfy | `memory_stream`, `callback_stream` |
| `Pipeline` | pipeline.dfy | `convert_image_2d`, `toJpeg`, `toJpeg_cb` |
| `Streamer` | streamer.dfy | the streamer object, `setFrame`, `jpg_encode_stream`, both handler loops |

Everything outside the core is a parameter.

- **The jpge encoder** is a record of three functions: init, scanline and
  finish. Each reports success and the chunks it pushed into the stream.
- **`yuv2rgb`** is a function `(y, u, v) -> Rgb`.
- **`_malloc` outcomes** are booleans.
- **`fmt2jpg` / `fmt2jpg_cb`** are given as their results.
- **`httpd_resp_send_chunk`** appends a `Write` to the connection's write
  log. Its status comes from an oracle indexed by the write's position.
- **`esp_timer_get_time`** is an oracle indexed by how many times the clock
  has been read.

A handler turn is a pure function. It maps the streamer's fields, the log
and these oracles to the turn's result, the new fields, the extended log and
the buffer passed to `free`. `size_t` is 32 bits wide, as on the ESP32.

### Quirks of the code

The code behaves in these places in ways a reader might not expect. The model
follows the code in each.

- **A failed body write in chunked mode.** `callback_stream::put_buf` always
  returns true. So a transport failure while the chunked handler forwards
  encoder output never fails the encoding, and never fails the turn
  (`Streamer.ChunkedIgnoresBodyWriteFailures`).
- **The chunked JPEG `Content-Length`.** An already-JPEG frame in chunked
  mode is announced with the `jpeg_buffer_size` left by the previous turn,
  not with its own size (`Streamer.ChunkedJpegAnnouncesStaleLength`).
- **The chunked byte count.** The count kept by `jpg_encode_stream` covers
  only writes the transport accepted. Forwarded chunks whose write failed do
  not add to it (`Streamer.EncodeStreamCounts`).
- **What gets freed.**
  - `free(jpeg_buffer)` runs after a failed `toJpeg` in length-delimited
    mode. Every turn on a non-JPEG frame in chunked mode runs it too, and
    that can be the published frame buffer
    (`Streamer.BufferedFailureFreesTwice`, `Streamer.ChunkedFreesFrameAfterJpeg`).
  - An end-of-image marker from the encoder is forwarded as a zero-length
    chunk of its own, before the handler's terminator
    (`Streamer.ChunkedEndOfImageIsForwarded`).
- **`last_frame` state.** `last_frame` is static and set only when it is 0.
  A failed `httpd_resp_set_type` returns without resetting it
  (`Streamer.StreamHandler`).
- **The `setFrame` prototype.** The header declares `setFrame` with
  `uint8_t *` and `uint16_t` parameters. The definition takes `Color **` and
  `uint32_t`, and the model follows the definition.

## Model

| member | source | states |
|---|---|---|
| CTypes.ToUint16 | src/MjpegStreamer.cpp:96-98 | the `uint32_t` width and height reach `toJpeg`'s `uint16_t` parameters reduced mod 2^16, unchanged when they fit |
| CTypes.AddSizeT | src/MjpegStreamer.cpp:152 | `size_t` addition wraps at 2^32 and is exact when the sum fits |
| CTypes.CDiv | src/MjpegStreamer.cpp:128-130 | C's `/` truncates toward zero: the remainder is smaller than the divisor and has the sign of the dividend |
| CTypes.CDivRoundsTowardZero | src/MjpegStreamer.cpp:128-130 | for a negative elapsed time C's quotient differs from floor division (-1500/1000 is -1, not -2) |
| WireFormat.DecimalRoundTrip | src/MjpegStreamer.h:42 | the `%u` rendering of any number parses back to that number |
| WireFormat.PartHeaderBound | src/MjpegStreamer.cpp:112 | the length-known part header for any 32-bit size is at most 56 bytes |
| WireFormat.PartHeader | src/MjpegStreamer.cpp:112-113 | the `hlen` bytes sent from the 64-byte `part_buf` are the full, untruncated header text |
| WireFormat.Snprintf | src/MjpegStreamer.cpp:112 | `snprintf` leaves a prefix of the text shorter than the buffer, the whole text when it fits and exactly `size - 1` characters when it does not, and returns the untruncated length |
| WireFormat.PartHeaderAnnouncesLength | src/MjpegStreamer.h:42 | the length-known header ends the header block, contains a Content-Length field, and a client reads back exactly the formatted length |
| WireFormat.ChunkedHeaderHasNoLength | src/MjpegStreamer.h:43 | the chunked part header ends the header block and the text `Content-Length` occurs nowhere in it, so a client reads no length |
| WireFormat.ContentTypeMatchesDelimiter | src/MjpegStreamer.h:40-41 | the delimiter a client derives from the content type's `boundary=` is exactly `_STREAM_BOUNDARY` |
| WireFormat.PartBoundaryIsValid | src/MjpegStreamer.h:8 | `PART_BOUNDARY` is a legal multipart boundary (RFC 2046 section 5.1.1) |
| Scanline.Rgb888Line | src/image_converters/image_converters.cpp:59-65 | the output has 3*width bytes and pixel k is source pixel k with its bytes reversed |
| Scanline.Rgb888Involution | src/image_converters/image_converters.cpp:59-65 | converting an RGB888 row twice gives back its first 3*width bytes |
| Scanline.Rgb565Pixel | src/image_converters/image_converters.cpp:69-71 | each unpacked component fits a byte and has zero low bits (3, 2 and 3 of them) |
| Scanline.Rgb565IsBigEndianWord | src/image_converters/image_converters.cpp:69-71 | the byte pair is unpacked as the big-endian 16-bit word with red in bits 15..11, green in 10..5 and blue in 4..0 |
| Scanline.Rgb565RoundTrip | src/image_converters/image_converters.cpp:69-71 | repacking the three components recovers the source byte pair, so nothing is lost |
| Scanline.Rgb565Line | src/image_converters/image_converters.cpp:66-72 | the output has 3*width bytes and pixel k is the unpacking of source bytes 2k and 2k+1 |
| Scanline.Yuv422Line | src/image_converters/image_converters.cpp:73-92 | for an even width the output has 3*width bytes and pixels 2j and 2j+1 are `yuv2rgb` of Y0 and Y1 with the pair's shared U and V |
| Scanline.Yuv422EqualLumaEqualPixels | src/image_converters/image_converters.cpp:83-91 | the two pixels of a pair with equal luma are identical |
| Scanline.Yuv422LineAsWritten | src/image_converters/image_converters.cpp:76-92 | the loop as written emits 6 bytes per turn for ceil(width/2) turns |
| Scanline.Yuv422OddWidthOverruns | src/image_converters/image_converters.cpp:76-92 | for an odd width the loop as written produces 3*width+3 bytes and reads 2*width+2 source bytes |
| Scanline.Yuv422OneByOneOverruns | src/image_converters/image_converters.cpp:76-92 | a one-pixel row produces six bytes where three fit |
| Scanline.Yuv422EvenWidthAgrees | src/image_converters/image_converters.cpp:76-92 | for even widths the loop as written equals the corrected converter |
| Scanline.ConvertLine | src/image_converters/image_converters.cpp:54-94 | per format: grayscale copies the first `width` bytes of row `line`, RGB888/RGB565/YUV422 as above, any other format leaves the destination untouched |
| Scanline.ConvertLineIgnoresScratch | src/image_converters/image_converters.cpp:56-93 | every converting branch overwrites the whole destination, so the scratch line's old contents never leak |
| Sinks.MemoryPutBuf | src/image_converters/image_converters.cpp:157-171 | always reports success; NULL changes nothing; otherwise `index` grows by min(len, max_len - index) with those bytes appended, so `index <= max_len` is kept |
| Sinks.CallbackPutBuf | src/image_converters/image_converters.cpp:185-188 | always reports success; `index` grows (mod 2^32) by exactly what the callback returns, so a callback returning 0 leaves it unchanged |
| Sinks.PutBuf | src/image_converters/image_converters.cpp:157-188 | neither output stream ever reports a failure and the memory stream's capacity never changes |
| Sinks.MemoryPutAllKeepsPrefix | src/image_converters/image_converters.cpp:157-173 | however the output is split into chunks, the memory stream holds exactly its first `max_len - index` bytes in order, and `get_size()` is min(max_len, index + total) |
| Sinks.MemoryFullIgnores | src/image_converters/image_converters.cpp:162-169 | a full memory stream is left unchanged by any further chunks |
| Sinks.MemoryTruncationExample | src/image_converters/image_converters.cpp:162-169 | two six-byte chunks into a ten-byte stream leave ten bytes |
| Pipeline.ClampQuality | src/image_converters/image_converters.cpp:106-110 | quality 0 becomes 1, above 100 becomes 100, 1..100 is unchanged, so the result is in [1, 100] |
| Pipeline.ClampQualityCollapses | src/image_converters/image_converters.cpp:106-114 | qualities 0 and 1 give the same encoder configuration, so do 100 and above, and clamping is idempotent |
| Pipeline.EncoderConfig | src/image_converters/image_converters.cpp:98-114 | the quality handed to the encoder is the clamped one; grayscale selects exactly 1 channel and luma-only subsampling, every other format 3 channels and H2V2 |
| Pipeline.RunStep | src/image_converters/image_converters.cpp:131 | an encoder step's chunks reach the stream and its success is the encoder's own, since `put_buf` never fails |
| Pipeline.EncodeRows | src/image_converters/image_converters.cpp:129-136 | the stream receives exactly the emitted chunks; the lines handed over extend the earlier ones without touching them; the loop succeeds iff it reached `height` with the last row accepted, and otherwise stopped at the first rejected row |
| Pipeline.EncodeRowsEmitsRowChunks | src/image_converters/image_converters.cpp:129-136 | the loop's chunks are exactly the encoder's scanline output for each line it handed over, in row order, each line handed over with all lines before it |
| Pipeline.EncodeRowsConvertsLines | src/image_converters/image_converters.cpp:129-130 | line i handed to the encoder is source row i converted by `convert_line_format_2d`, whatever the scratch line held before |
| Pipeline.EncodeRowsAcceptsEarlierRows | src/image_converters/image_converters.cpp:129-136 | the loop moves past a row only when the encoder accepted it, so every row before the last one handed over was accepted |
| Pipeline.ConvertImage2d | src/image_converters/image_converters.cpp:96-145 | the scratch line is allocated iff init succeeded and `_malloc` did, and then freed exactly once; the result is true iff init, allocation, every row 0..h-1 in order and the final NULL scanline all succeed; the emitted chunks are the encoder's init output, then each row's scanline output in row order, then the final scanline's output, each only when the code reaches that call; the stream received exactly the emitted chunks |
| Pipeline.EncodeRowsIgnoresSink | src/image_converters/image_converters.cpp:129-136 | the row loop sees the same lines, emits the same chunks and reaches the same verdict whatever stream it writes to |
| Pipeline.ConvertImage2dIgnoresSink | src/image_converters/image_converters.cpp:96-145 | the whole encoding, scratch frees included, is independent of the output stream |
| Pipeline.ConvertImage2dQualityCollapses | src/image_converters/image_converters.cpp:106-114 | the whole encoding (verdict, chunks, lines, frees, stream) is the same for qualities 0 and 1, and for any two qualities of 100 and above |
| Pipeline.ToJpeg | src/image_converters/image_converters.cpp:192-217 | on failure `*out` and `*out_len` are untouched; on success `*out` is a fresh buffer of `*out_len` bytes, on the row path the encoder output cut at 64 KiB; the 64 KiB buffer is freed iff it was obtained and the encoding failed; on the row path the result is true iff the buffer was obtained and `convert_image_2d` into a fresh 64 KiB memory stream succeeds, and the chunks are that call's; the flat path returns what `fmt2jpg` does |
| Pipeline.ToJpegCb | src/image_converters/image_converters.cpp:219-227 | the callback argument ends as a fresh callback stream leaves it after receiving every emitted chunk; on the row path success and emitted chunks are those of `convert_image_2d` into a fresh callback stream; the flat path is `fmt2jpg_cb`'s result |
| Pipeline.ToJpegCbIgnoresCallback | src/image_converters/image_converters.cpp:185-188 | success and emitted chunks of `toJpeg_cb` are the same for any callback, so a callback that accepts nothing cannot fail the encoding |
| Pipeline.ToJpegPathsAgree | src/image_converters/image_converters.cpp:192-227 | on the row path `toJpeg` and `toJpeg_cb` succeed together and emit the same chunks |
| Streamer.HandlerOf | src/MjpegStreamer.cpp:26 | the chunked handler is registered iff `streaming_mode_chunked` is set |
| Streamer.NewMjpegStreamer | src/MjpegStreamer.h:13-14 | the constructor stores port and mode, is not initialised and holds no frame |
| Streamer.DefaultStreamer | src/MjpegStreamer.h:13-14 | by default port 80 and the length-delimited handler |
| Streamer.SetFrame | src/MjpegStreamer.cpp:55-69 | overwrites pointer, format, width, height and 2D flag, sets the size to width*height*sizeof(Color) mod 2^32, leaves every other field alone and returns ESP_OK |
| Streamer.SetFrameLastWins | src/MjpegStreamer.cpp:55-69 | publishing two frames in a row is publishing the second |
| Streamer.HeaderText | src/MjpegStreamer.cpp:109-113 | every header write fits the 64-byte `part_buf` |
| Streamer.HeadersAsParsed | src/MjpegStreamer.h:40-43 | a client finds the announced delimiter, the formatted length in the length-known header, and no Content-Length field anywhere in the chunked one |
| Streamer.GatedSends | src/MjpegStreamer.cpp:108-118 | writes go out in order, each only after all earlier ones succeeded, stopping at the first failure, whose status is the result |
| Streamer.JpgEncodeStream | src/MjpegStreamer.cpp:144-154 | index 0 resets the count; the chunk is written; a failed write returns 0 and keeps the count, a successful one adds and returns `len` |
| Streamer.EncodeStreamCounts | src/MjpegStreamer.cpp:144-154 | through a callback stream every chunk becomes one write in order, and the count equals the stream index and the bytes of exactly the successful writes (mod 2^32) |
| Streamer.BufferedJpegTurn | src/MjpegStreamer.cpp:103-118 | a JPEG frame aliases the frame buffer with `frame_buffer_size`, is sent as boundary, header and body under the success gate, and is not freed |
| Streamer.BufferedEncodeTurn | src/MjpegStreamer.cpp:95-122 | a failed conversion writes nothing, keeps `jpeg_buffer` and frees it; a successful one stores in `jpeg_buffer` and `jpeg_buffer_size` exactly what `toJpeg` returned for the frame, sends that buffer with its exact length and frees it |
| Streamer.BufferedIteration | src/MjpegStreamer.cpp:89-122 | a null frame fails with no write; otherwise the JPEG or encode turn; only the log grows and the frame fields are untouched |
| Streamer.ChunkedEncodeTail | src/MjpegStreamer.cpp:192-221 | the frame is encoded whatever the header writes returned; every chunk is forwarded as one write; one zero-length chunk follows whatever happened; `jpeg_buffer_size` becomes the accepted byte count; the turn fails iff a header write or the encoding failed; `jpeg_buffer` is freed |
| Streamer.ChunkedIteration | src/MjpegStreamer.cpp:174-221 | a null frame fails with no write; a JPEG frame is boundary, stale-length header and body under the gate and not freed; any other frame is the gated boundary and chunked header followed by the encode tail |
| Streamer.FrameTime | src/MjpegStreamer.cpp:127-130 | the frame time is the elapsed microseconds divided by 1000, floor for non-negative differences |
| Streamer.ClockTimesAt | src/MjpegStreamer.cpp:127-129 | each frame time is measured from the previous clock reading, the first from `last_frame` |
| Streamer.Loop | src/MjpegStreamer.cpp:88-136 | the loop only appends to the log, never exits with ESP_OK, resets `last_frame` to 0 on exit, records at most one frame time per turn, and one per turn for every turn when it does not exit |
| Streamer.TraceRunsOnSuccess | src/MjpegStreamer.cpp:88-126 | in the turns a loop runs, every turn but the last returned ESP_OK: the loop goes on only after a successful turn |
| Streamer.TraceStopsAtFailure | src/MjpegStreamer.cpp:88-126 | a run of fewer turns than its bound ends with a turn that did not return ESP_OK |
| Streamer.TraceChains | src/MjpegStreamer.cpp:88-136 | the first turn runs on the initial fields and log, and each later turn on the fields and log the turn before it left, with the turn count advanced by one |
| Streamer.LoopExitsAtFailedTurn | src/MjpegStreamer.cpp:88-136 | the loop exits iff the last turn of its trace failed, and then with that turn's result |
| Streamer.LoopExitsWithFailedTurn | src/MjpegStreamer.cpp:88-136 | on exit the fields and log are those the failing turn left, and one frame time was recorded for each turn before it |
| Streamer.LoopRunsEveryTurn | src/MjpegStreamer.cpp:88-136 | a loop without exit ran all `fuel` turns and holds the fields and log the last one left |
| Streamer.LoopReturnsFailedTurn | src/MjpegStreamer.cpp:88-136 | a fresh loop returns the result, fields and log of the first failing turn after one frame time per earlier turn, all of which returned ESP_OK, and has no result only after `fuel` successful turns; the frees are those of its turns |
| Streamer.LoopRecordsFrees | src/MjpegStreamer.cpp:88-133 | the buffers freed over a loop are those each turn of its trace frees, in turn order |
| Streamer.LoopFrameTimes | src/MjpegStreamer.cpp:124-131 | recorded frame times are those of consecutive clock readings, and a running loop's `last_frame` is its latest reading |
| Streamer.StreamHandler | src/MjpegStreamer.cpp:71-136 | `last_frame` is initialised when 0; a failed `set_type` returns its code at once with no write; otherwise the loop's exit resets `last_frame` and never returns ESP_OK |
| Streamer.StreamHandlerReturnsFailedTurn | src/MjpegStreamer.cpp:88-136 | after a successful `set_type` the handler returns the result of the first failing turn, with that turn's log and one frame time per earlier turn, all of which returned ESP_OK; it has no result only after `turns` successful turns |
| Streamer.NullFrameWritesNothing | src/MjpegStreamer.cpp:89-93 | with no frame the handler returns ESP_FAIL with no boundary, header or body written, nothing freed and `last_frame` 0 |
| Streamer.FrameTimeExample | src/MjpegStreamer.cpp:127-130 | two turns 40 ms apart give a frame time of 40 |
| Streamer.ChunkedJpegAnnouncesStaleLength | src/MjpegStreamer.cpp:187-211 | a chunked JPEG part announces the previous turn's `jpeg_buffer_size` while sending `frame_buffer_size` bytes |
| Streamer.ChunkedJpegLengthCatchesUp | src/MjpegStreamer.cpp:187-207 | the next turn on the same JPEG frame announces `frame_buffer_size` |
| Streamer.BufferedFailureFreesTwice | src/MjpegStreamer.cpp:95-122 | a failed conversion after a successful one frees the heap buffer the earlier turn already freed |
| Streamer.ChunkedFreesFrameAfterJpeg | src/MjpegStreamer.cpp:205-221 | after a JPEG turn, a chunked turn on a re-published non-JPEG frame frees the buffer of the frame published before, while streaming the new one |
| Streamer.ChunkedIgnoresBodyWriteFailures | src/MjpegStreamer.cpp:192-205 | with successful header writes the chunked turn succeeds whenever encoding would succeed with a transport rejecting every body write |
| Streamer.ChunkedEndOfImageIsForwarded | src/MjpegStreamer.cpp:144-154 | an end-of-image marker from the encoder becomes a zero-length chunk ahead of the handler's final one |

## Findings

| source | as written | input that shows it | evidently intended | confidence | as-written member | corrected member |
|---|---|---|---|---|---|---|
| src/image_converters/image_converters.cpp:76-92 | the YUV422 loop steps `i` by 4 up to `2 * width`, so an odd width runs ceil(width/2) turns | width 1: six bytes are written into a three-byte scratch line, and four source bytes are read from a two-byte row | 3*width output bytes from 2*width source bytes; YUV422 rows have even width | not executed | Scanline.Yuv422OddWidthOverruns | Scanline.Yuv422Line |

The pipeline uses `Scanline.Yuv422Line`, which is only defined for even
widths (`Scanline.RowReadable`). `Scanline.Yuv422EvenWidthAgrees` shows that
for those widths it is the loop as written.

## Left out

- `init` and the destructor (src/MjpegStreamer.cpp:9-53) are left out. They
  start the HTTP server, look up the IP address, log, and free on
  destruction. The `/mjpeg/1` URI they register (`stream_uri`) is left out with them. Only
  the handler choice (`Streamer.HandlerOf`) is modelled.
- The jpge encoder internals, `yuv2rgb`, `fmt2jpg` and `fmt2jpg_cb` are
  foreign libraries. They are oracle parameters; nothing is proved about
  their output bytes.
- `_malloc`'s SPIRAM fallback (src/image_converters/image_converters.cpp:46-52)
  is left out. Allocation is a success flag plus an identifier for the
  buffer obtained.
- `httpd_resp_set_hdr` has no return value that is used, so it is left out.
  The effect of a zero-length chunk on the HTTP response is a transport
  matter and is also left out.
- The fps value `1000.0 / frame_time` and all `ESP_LOG*` output are left out
  (floating point and logging).
- Concurrency is left out. This covers the `static last_frame` shared by
  simultaneous connections, and `setFrame` racing with a handler. The
  model's `last_frame` belongs to one handler invocation.
- src/image_converters/image_converters.h is not modelled separately. It
  only holds prototypes, and its default `line_format_2d = false` selects
  the flat path, which `Pipeline.ToJpeg` covers.
- `setFrameJpeg` is declared in src/MjpegStreamer.h:18 and is not part of
  this model, because no definition of it exists.
- The `MjpegStreamer` fields without an initialiser (pointers and sizes) are
  modelled as zero, as for an object in static storage. An automatic object
  would hold indeterminate values.
- Scanline.PixelFormat: only JPEG, GRAYSCALE, RGB888, RGB565 and YUV422 are
  modelled. Every other `pixformat_t` takes no branch in
  `convert_line_format_2d`, just as JPEG does.
- Scanline.Yuv422Line requires an even width; odd widths are the finding
  above.
- Pipeline.ConvertImage2d: the encoder's own success flag assumes every
  `put_buf` succeeded. This is exact here, because neither stream ever
  reports a failure.
- Streamer.StreamHandler and Streamer.Loop: the `while (true)` loop is
  observed for a bounded number of turns. A run that never fails is only
  described up to that bound.
- Streamer.HeaderText: body writes carry a reference to the buffer and a
  length, not the bytes. A JPEG frame's pixel data is not modelled.
- Streamer.ChunkedEndOfImageIsForwarded: whether the jpge encoder emits an
  end-of-image marker depends on the foreign encoder. The lemma applies when
  it does.
