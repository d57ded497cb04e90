/** The JPEG encoder pipeline: `convert_image_2d` drives the (foreign) jpge
    block encoder scanline by scanline over a row-pointer buffer, and
    `toJpeg` / `toJpeg_cb` choose between that path, writing into a 64 KiB
    memory stream or through a callback, and the foreign flat-buffer path. */
module Pipeline {
  import opened CTypes
  import opened Scanline
  import opened Sinks

  /** `jpge::subsampling_t`, the two values this core chooses between. */
  datatype Subsampling = YOnly | H2V2

  /** The jpge parameters this core sets, and what `jpeg_encoder::init` is given. */
  datatype Params = Params(quality: nat, subsampling: Subsampling)
  datatype Config = Config(width: nat, height: nat, channels: nat, params: Params)

  /** The outcome of one call into the encoder: whether it succeeded, and the
      chunks it pushed into the output stream on the way. */
  datatype Step = Step(ok: bool, out: seq<Chunk>)

  /** The foreign jpge encoder as an oracle. `scanline` sees every line handed
      to it so far (the current one last), `finish` is `process_scanline(NULL)`.
      The `ok` it reports assumes every `put_buf` succeeded; the pipeline
      combines it with what the stream actually returned. */
  datatype Jpge = Jpge(
    init: Config -> Step,
    scanline: (Config, seq<seq<byte>>) -> Step,
    finish: (Config, seq<seq<byte>>) -> Step)

  /** Quality as `convert_image_2d` clamps its `uint8_t` argument. */
  function ClampQuality(q: nat): (r: nat)
    requires q < 256
    ensures 1 <= r <= 100
    ensures q == 0 ==> r == 1
    ensures q > 100 ==> r == 100
    ensures 1 <= q <= 100 ==> r == q
  {
    if q == 0 then 1 else if q > 100 then 100 else q
  }

  /** The encoder configuration: grayscale is one channel, luma only; every
      other format three channels with 2x2 chroma subsampling. */
  function EncoderConfig(width: nat, height: nat, format: PixelFormat, quality: nat): (cfg: Config)
    requires quality < 256
    ensures cfg.width == width && cfg.height == height
    ensures cfg.channels == Channels(format)
    ensures cfg.channels == 1 <==> cfg.params.subsampling == YOnly
    ensures cfg.params.subsampling == YOnly <==> format == Grayscale
    ensures 1 <= cfg.params.quality <= 100
    ensures cfg.params.quality == ClampQuality(quality)
  {
    var subsampling := if format == Grayscale then YOnly else H2V2;
    Config(width, height, Channels(format), Params(ClampQuality(quality), subsampling))
  }

  /** Quality 0 configures the encoder as 1 does, anything above 100 as 100
      does, and clamping twice changes nothing. */
  lemma ClampQualityCollapses(width: nat, height: nat, format: PixelFormat, q: nat)
    requires q < 256
    ensures ClampQuality(0) == ClampQuality(1)
    ensures q >= 100 ==> ClampQuality(q) == ClampQuality(100)
    ensures ClampQuality(ClampQuality(q)) == ClampQuality(q)
    ensures EncoderConfig(width, height, format, 0) == EncoderConfig(width, height, format, 1)
    ensures q >= 100 ==> EncoderConfig(width, height, format, q) == EncoderConfig(width, height, format, 100)
  {
  }

  /** Runs one encoder step against the stream: its chunks go out, and it
      succeeds only if the encoder and every `put_buf` did. */
  function RunStep<S>(step: Step, sink: Sink<S>, ocb: Callback<S>): (r: (Sink<S>, bool))
    requires sink.Valid()
    ensures r.0 == PutAll(sink, ocb, step.out).0
    ensures r.1 == step.ok
  {
    var (s1, putOk) := PutAll(sink, ocb, step.out);
    (s1, step.ok && putOk)
  }

  // ---------------------------------------------------------------------------
  // convert_image_2d
  // ---------------------------------------------------------------------------

  /** Whether the encoder accepted line `i`, given the lines before it. */
  predicate RowOk(jpge: Jpge, cfg: Config, lines: seq<seq<byte>>, i: nat)
    requires i < |lines|
  {
    jpge.scanline(cfg, lines[..i + 1]).ok
  }

  /** The chunks the encoder pushes while taking lines `i` up to `j` of
      `lines`, in order: line `k` is handed over with the lines before it. */
  function RowChunks(jpge: Jpge, cfg: Config, lines: seq<seq<byte>>, i: nat, j: nat): seq<Chunk>
    requires i <= j <= |lines|
    decreases j - i
  {
    if i == j then [] else jpge.scanline(cfg, lines[..i + 1]).out + RowChunks(jpge, cfg, lines, i + 1, j)
  }

  datatype Rows<S> = Rows(ok: bool, sink: Sink<S>, emitted: seq<Chunk>, lines: seq<seq<byte>>)

  /** The scanline loop from row `|lines|` on: convert the row into the
      scratch line, hand it to the encoder, stop at the first failure.
      `scratch` is the scratch line's current contents. */
  function EncodeRows<S>(src: seq<seq<byte>>, format: PixelFormat, width: nat, height: nat, cfg: Config,
                         jpge: Jpge, yuv: Yuv2Rgb, sink: Sink<S>, ocb: Callback<S>,
                         lines: seq<seq<byte>>, scratch: seq<byte>): (r: Rows<S>)
    requires RowsReadable(src, format, width, height) && |lines| <= height && sink.Valid()
    ensures r.sink == PutAll(sink, ocb, r.emitted).0
    ensures |lines| <= |r.lines| <= height && r.lines[..|lines|] == lines
    ensures r.ok <==> |r.lines| == height && (|r.lines| == |lines| || RowOk(jpge, cfg, r.lines, height - 1))
    ensures |r.lines| < height ==> |r.lines| > |lines| && !RowOk(jpge, cfg, r.lines, |r.lines| - 1)
    decreases height - |lines|
  {
    if |lines| == height then Rows(true, sink, [], lines)
    else
      var i := |lines|;
      var line := ConvertLine(src, format, width, i, scratch, yuv);
      var lines' := lines + [line];
      assert lines'[..i + 1] == lines';
      var (s1, ok) := RunStep(jpge.scanline(cfg, lines'), sink, ocb);
      if !ok then Rows(false, s1, jpge.scanline(cfg, lines').out, lines')
      else
        var rest := EncodeRows(src, format, width, height, cfg, jpge, yuv, s1, ocb, lines', line);
        PutAllAppend(sink, ocb, jpge.scanline(cfg, lines').out, rest.emitted);
        assert rest.lines[..i + 1] == lines';
        Rows(rest.ok, rest.sink, jpge.scanline(cfg, lines').out + rest.emitted, rest.lines)
  }

  /** The scanline loop emits exactly what the encoder pushes for the lines
      it hands over, line by line. */
  lemma {:induction false} EncodeRowsEmitsRowChunks<S>(src: seq<seq<byte>>, format: PixelFormat, width: nat, height: nat,
                                                        cfg: Config, jpge: Jpge, yuv: Yuv2Rgb, sink: Sink<S>,
                                                        ocb: Callback<S>, lines: seq<seq<byte>>, scratch: seq<byte>)
    requires RowsReadable(src, format, width, height) && |lines| <= height && sink.Valid()
    ensures var r := EncodeRows(src, format, width, height, cfg, jpge, yuv, sink, ocb, lines, scratch);
      r.emitted == RowChunks(jpge, cfg, r.lines, |lines|, |r.lines|)
    decreases height - |lines|
  {
    if |lines| < height {
      var i := |lines|;
      var line := ConvertLine(src, format, width, i, scratch, yuv);
      var lines' := lines + [line];
      assert lines'[..i + 1] == lines';
      var (s1, ok) := RunStep(jpge.scanline(cfg, lines'), sink, ocb);
      if !ok {
        assert RowChunks(jpge, cfg, lines', i, i + 1) == jpge.scanline(cfg, lines').out + [];
      } else {
        EncodeRowsEmitsRowChunks(src, format, width, height, cfg, jpge, yuv, s1, ocb, lines', line);
        var rest := EncodeRows(src, format, width, height, cfg, jpge, yuv, s1, ocb, lines', line);
        assert rest.lines[..i + 1] == lines';
      }
    }
  }

  /** The loop only moves on from a row the encoder accepted. */
  lemma {:induction false} EncodeRowsAcceptsEarlierRows<S>(src: seq<seq<byte>>, format: PixelFormat, width: nat,
                                                           height: nat, cfg: Config, jpge: Jpge, yuv: Yuv2Rgb,
                                                           sink: Sink<S>, ocb: Callback<S>, lines: seq<seq<byte>>,
                                                           scratch: seq<byte>)
    requires RowsReadable(src, format, width, height) && |lines| <= height && sink.Valid()
    ensures var r := EncodeRows(src, format, width, height, cfg, jpge, yuv, sink, ocb, lines, scratch);
      forall i :: |lines| <= i < |r.lines| - 1 ==> RowOk(jpge, cfg, r.lines, i)
    decreases height - |lines|
  {
    if |lines| < height {
      var i := |lines|;
      var line := ConvertLine(src, format, width, i, scratch, yuv);
      var lines' := lines + [line];
      var (s1, ok) := RunStep(jpge.scanline(cfg, lines'), sink, ocb);
      if ok {
        EncodeRowsAcceptsEarlierRows(src, format, width, height, cfg, jpge, yuv, s1, ocb, lines', line);
        var rest := EncodeRows(src, format, width, height, cfg, jpge, yuv, s1, ocb, lines', line);
        assert var r := EncodeRows(src, format, width, height, cfg, jpge, yuv, s1, ocb, lines', line);
          forall i :: |lines'| <= i < |r.lines| - 1 ==> RowOk(jpge, cfg, r.lines, i);
        assert EncodeRows(src, format, width, height, cfg, jpge, yuv, sink, ocb, lines, scratch).lines == rest.lines;
        assert rest.lines[..i + 1] == lines' && lines'[..i + 1] == lines';
        assert RowOk(jpge, cfg, rest.lines, i);
      }
    }
  }

  /** Line `i` handed over is source row `i` converted: the scratch line's
      earlier contents never show through. */
  lemma {:induction false} EncodeRowsConvertsLines<S>(src: seq<seq<byte>>, format: PixelFormat, width: nat, height: nat,
                                                       cfg: Config, jpge: Jpge, yuv: Yuv2Rgb, sink: Sink<S>,
                                                       ocb: Callback<S>, lines: seq<seq<byte>>, scratch: seq<byte>)
    requires RowsReadable(src, format, width, height) && |lines| <= height && sink.Valid()
    ensures var r := EncodeRows(src, format, width, height, cfg, jpge, yuv, sink, ocb, lines, scratch);
      forall i :: |lines| <= i < |r.lines| ==> r.lines[i] == ConvertLine(src, format, width, i, scratch, yuv)
    decreases height - |lines|
  {
    if |lines| < height {
      var i := |lines|;
      var line := ConvertLine(src, format, width, i, scratch, yuv);
      var lines' := lines + [line];
      var (s1, ok) := RunStep(jpge.scanline(cfg, lines'), sink, ocb);
      if ok {
        EncodeRowsConvertsLines(src, format, width, height, cfg, jpge, yuv, s1, ocb, lines', line);
        var rest := EncodeRows(src, format, width, height, cfg, jpge, yuv, s1, ocb, lines', line);
        assert EncodeRows(src, format, width, height, cfg, jpge, yuv, sink, ocb, lines, scratch).lines == rest.lines;
        forall j | i <= j < |rest.lines|
          ensures rest.lines[j] == ConvertLine(src, format, width, j, scratch, yuv)
        {
          if j == i {
            assert rest.lines[j] == rest.lines[..i + 1][i] == line;
          } else {
            assert rest.lines[j] == ConvertLine(src, format, width, j, line, yuv);
            if format != Jpeg {
              ConvertLineIgnoresScratch(src, format, width, j, line, scratch, yuv);
            }
          }
        }
      }
    }
  }

  /** What one `convert_image_2d` call did: its result, the stream after it,
      every chunk the encoder pushed, the lines handed to `process_scanline`
      in order, whether the scratch line was allocated and how often it was
      freed. */
  datatype Encoding<S> = Encoding(ok: bool, sink: Sink<S>, emitted: seq<Chunk>, lines: seq<seq<byte>>,
                                  scratchAllocated: bool, frees: nat)

  /** `convert_image_2d(src, width, height, format, quality, dst_stream)`:
      init, allocate the scratch line, rows 0 .. height-1 in order, free the
      scratch line, then the terminating NULL scanline. `lineAllocOk` is the
      outcome of `_malloc`, `scratch` the uninitialised contents of the line. */
  function ConvertImage2d<S>(src: seq<seq<byte>>, width: nat, height: nat, format: PixelFormat, quality: nat,
                             sink: Sink<S>, ocb: Callback<S>, jpge: Jpge, yuv: Yuv2Rgb,
                             lineAllocOk: bool, scratch: seq<byte>): (r: Encoding<S>)
    requires width < UINT16_MOD && height < UINT16_MOD && quality < 256
    requires RowsReadable(src, format, width, height) && sink.Valid()
    ensures var cfg := EncoderConfig(width, height, format, quality);
      && r.sink == PutAll(sink, ocb, r.emitted).0
      && r.emitted == jpge.init(cfg).out
           + (if !r.scratchAllocated then []
              else RowChunks(jpge, cfg, r.lines, 0, |r.lines|)
                   + (if |r.lines| == height && (height == 0 || RowOk(jpge, cfg, r.lines, height - 1))
                      then jpge.finish(cfg, r.lines).out else []))
      && (r.scratchAllocated <==> jpge.init(cfg).ok && lineAllocOk)
      && r.frees == (if r.scratchAllocated then 1 else 0)
      && (!r.scratchAllocated ==> r.lines == [])
      && |r.lines| <= height
      && (forall i :: 0 <= i < |r.lines| ==> r.lines[i] == ConvertLine(src, format, width, i, scratch, yuv))
      && (forall i :: 0 <= i < |r.lines| - 1 ==> RowOk(jpge, cfg, r.lines, i))
      && (r.scratchAllocated && |r.lines| < height ==> |r.lines| > 0 && !RowOk(jpge, cfg, r.lines, |r.lines| - 1))
      && (r.ok <==> r.scratchAllocated && |r.lines| == height
                    && (height == 0 || RowOk(jpge, cfg, r.lines, height - 1))
                    && jpge.finish(cfg, r.lines).ok)
  {
    var cfg := EncoderConfig(width, height, format, quality);
    var (s1, initOk) := RunStep(jpge.init(cfg), sink, ocb);
    if !initOk then Encoding(false, s1, jpge.init(cfg).out, [], false, 0)
    else if !lineAllocOk then Encoding(false, s1, jpge.init(cfg).out, [], false, 0)
    else
      var rows := EncodeRows(src, format, width, height, cfg, jpge, yuv, s1, ocb, [], scratch);
      EncodeRowsEmitsRowChunks(src, format, width, height, cfg, jpge, yuv, s1, ocb, [], scratch);
      EncodeRowsConvertsLines(src, format, width, height, cfg, jpge, yuv, s1, ocb, [], scratch);
      EncodeRowsAcceptsEarlierRows(src, format, width, height, cfg, jpge, yuv, s1, ocb, [], scratch);
      PutAllAppend(sink, ocb, jpge.init(cfg).out, rows.emitted);
      if !rows.ok then Encoding(false, rows.sink, jpge.init(cfg).out + rows.emitted, rows.lines, true, 1)
      else
        var fin := jpge.finish(cfg, rows.lines);
        var (s2, finOk) := RunStep(fin, rows.sink, ocb);
        PutAllAppend(sink, ocb, jpge.init(cfg).out + rows.emitted, fin.out);
        ConcatAssoc(jpge.init(cfg).out, rows.emitted, fin.out);
        Encoding(finOk, s2, jpge.init(cfg).out + rows.emitted + fin.out, rows.lines, true, 1)
  }

  /** The encoder's run does not depend on the stream it writes to: with any
      two streams it sees the same lines, emits the same chunks and reaches
      the same verdict, because neither stream ever reports a failure. */
  lemma {:induction false} EncodeRowsIgnoresSink<S, T>(src: seq<seq<byte>>, format: PixelFormat, width: nat, height: nat,
                                                       cfg: Config, jpge: Jpge, yuv: Yuv2Rgb,
                                                       sink1: Sink<S>, ocb1: Callback<S>, sink2: Sink<T>, ocb2: Callback<T>,
                                                       lines: seq<seq<byte>>, scratch: seq<byte>)
    requires RowsReadable(src, format, width, height) && |lines| <= height && sink1.Valid() && sink2.Valid()
    ensures var r1 := EncodeRows(src, format, width, height, cfg, jpge, yuv, sink1, ocb1, lines, scratch);
            var r2 := EncodeRows(src, format, width, height, cfg, jpge, yuv, sink2, ocb2, lines, scratch);
            r1.ok == r2.ok && r1.emitted == r2.emitted && r1.lines == r2.lines
    decreases height - |lines|
  {
    if |lines| < height {
      var i := |lines|;
      var line := ConvertLine(src, format, width, i, scratch, yuv);
      var lines' := lines + [line];
      var step := jpge.scanline(cfg, lines');
      var (s1, ok1) := RunStep(step, sink1, ocb1);
      var (s2, ok2) := RunStep(step, sink2, ocb2);
      assert ok1 == ok2 == step.ok;
      if step.ok {
        EncodeRowsIgnoresSink(src, format, width, height, cfg, jpge, yuv, s1, ocb1, s2, ocb2, lines', line);
      }
    }
  }

  lemma ConvertImage2dIgnoresSink<S, T>(src: seq<seq<byte>>, width: nat, height: nat, format: PixelFormat, quality: nat,
                                        sink1: Sink<S>, ocb1: Callback<S>, sink2: Sink<T>, ocb2: Callback<T>,
                                        jpge: Jpge, yuv: Yuv2Rgb, lineAllocOk: bool, scratch: seq<byte>)
    requires width < UINT16_MOD && height < UINT16_MOD && quality < 256
    requires RowsReadable(src, format, width, height) && sink1.Valid() && sink2.Valid()
    ensures var r1 := ConvertImage2d(src, width, height, format, quality, sink1, ocb1, jpge, yuv, lineAllocOk, scratch);
            var r2 := ConvertImage2d(src, width, height, format, quality, sink2, ocb2, jpge, yuv, lineAllocOk, scratch);
            r1.ok == r2.ok && r1.emitted == r2.emitted && r1.lines == r2.lines && r1.frees == r2.frees
  {
    var cfg := EncoderConfig(width, height, format, quality);
    if jpge.init(cfg).ok && lineAllocOk {
      var s1 := RunStep(jpge.init(cfg), sink1, ocb1).0;
      var s2 := RunStep(jpge.init(cfg), sink2, ocb2).0;
      EncodeRowsIgnoresSink(src, format, width, height, cfg, jpge, yuv, s1, ocb1, s2, ocb2, [], scratch);
    }
  }

  /** Two qualities that clamp to the same value produce the same encoding:
      0 encodes as 1 does, and anything above 100 as 100 does. */
  lemma ConvertImage2dQualityCollapses<S>(src: seq<seq<byte>>, width: nat, height: nat, format: PixelFormat,
                                          q1: nat, q2: nat, sink: Sink<S>, ocb: Callback<S>, jpge: Jpge,
                                          yuv: Yuv2Rgb, lineAllocOk: bool, scratch: seq<byte>)
    requires width < UINT16_MOD && height < UINT16_MOD && q1 < 256 && q2 < 256
    requires RowsReadable(src, format, width, height) && sink.Valid()
    requires (q1 <= 1 && q2 <= 1) || (q1 >= 100 && q2 >= 100)
    ensures ConvertImage2d(src, width, height, format, q1, sink, ocb, jpge, yuv, lineAllocOk, scratch)
         == ConvertImage2d(src, width, height, format, q2, sink, ocb, jpge, yuv, lineAllocOk, scratch)
  {
    assert EncoderConfig(width, height, format, q1) == EncoderConfig(width, height, format, q2);
  }

  // ---------------------------------------------------------------------------
  // toJpeg / toJpeg_cb
  // ---------------------------------------------------------------------------

  /** What a `uint8_t *` output pointer designates: nothing, a published
      frame (identified by its rows), or a heap buffer (identified by `id`)
      holding `bytes`. */
  datatype BufRef = NullBuf | FrameBuf(rows: seq<seq<byte>>) | HeapBuf(id: nat, bytes: seq<byte>)

  /** Capacity of the memory stream `toJpeg` allocates on the row-pointer path. */
  const JPG_BUF_LEN: nat := 64 * 1024

  /** Outcome of the foreign flat-buffer converter `fmt2jpg`: on success it
      hands back a fresh buffer; on failure it leaves `*out` alone. */
  datatype FlatJpeg = FlatFailed | FlatConverted(bytes: seq<byte>)

  /** Everything outside this core one encode depends on: the jpge and
      `yuv2rgb` oracles, the outcomes of the two `_malloc` calls, the id the
      64 KiB buffer gets, the scratch line's uninitialised contents, and the
      flat-path converters (`fmt2jpg_cb` as the chunks it emits and its result). */
  datatype EncodeEnv = EncodeEnv(jpge: Jpge, yuv: Yuv2Rgb, lineAllocOk: bool, scratch: seq<byte>,
                                 jpgBufAllocOk: bool, jpgBufId: nat, flat: FlatJpeg, flatCb: Step) {
    predicate Valid() {
      flat.FlatConverted? ==> |flat.bytes| < SIZE_T_MOD
    }
  }

  /** The callback of a memory stream is never called. */
  function NoCallback(): Callback<()> {
    (arg: (), index: nat, c: Chunk) => (arg, 0)
  }

  /** Result of `toJpeg`: its return value, `*out` and `*out_len` afterwards,
      whether it freed the 64 KiB buffer, and the chunks the encoder emitted. */
  datatype ToJpegResult = ToJpegResult(ok: bool, out: BufRef, outLen: nat, bufFreed: bool, emitted: seq<Chunk>)

  /** `toJpeg(src, src_len, width, height, format, quality, out, out_len,
      line_format_2d)`. On failure `*out` and `*out_len` keep their values;
      on success `*out` is a fresh buffer of `*out_len` bytes, which on the
      row-pointer path are the first bytes of the encoder's output, cut at
      64 KiB. The 64 KiB buffer is freed exactly when it was obtained and the
      encoding failed. */
  function ToJpeg(src: seq<seq<byte>>, srcLen: nat, width: nat, height: nat, format: PixelFormat, quality: nat,
                  out: BufRef, outLen: nat, lineFormat2d: bool, env: EncodeEnv): (r: ToJpegResult)
    requires width < UINT16_MOD && height < UINT16_MOD && quality < 256
    requires lineFormat2d ==> RowsReadable(src, format, width, height)
    requires env.Valid()
    ensures !r.ok ==> r.out == out && r.outLen == outLen
    ensures r.ok ==> r.out.HeapBuf? && r.out.id == env.jpgBufId && |r.out.bytes| == r.outLen < SIZE_T_MOD
    ensures lineFormat2d && r.ok ==>
      && env.jpgBufAllocOk
      && r.outLen == Min(JPG_BUF_LEN, |Flatten(r.emitted)|)
      && r.out.HeapBuf? && r.out.bytes == Flatten(r.emitted)[..r.outLen]
    ensures lineFormat2d ==>
      var e := ConvertImage2d(src, width, height, format, quality, MemorySink(MemoryStream(JPG_BUF_LEN, [])), NoCallback(),
                              env.jpge, env.yuv, env.lineAllocOk, env.scratch);
      && (r.ok <==> env.jpgBufAllocOk && e.ok)
      && r.emitted == (if env.jpgBufAllocOk then e.emitted else [])
    ensures lineFormat2d ==> (r.bufFreed <==> env.jpgBufAllocOk && !r.ok)
    ensures !lineFormat2d ==> !r.bufFreed && (r.ok <==> env.flat.FlatConverted?)
    ensures !lineFormat2d && r.ok ==> r.out.HeapBuf? && env.flat.FlatConverted? && r.out.bytes == env.flat.bytes
  {
    if lineFormat2d then
      if !env.jpgBufAllocOk then ToJpegResult(false, out, outLen, false, [])
      else
        var m := MemoryStream(JPG_BUF_LEN, []);
        var e := ConvertImage2d(src, width, height, format, quality, MemorySink(m), NoCallback(),
                                env.jpge, env.yuv, env.lineAllocOk, env.scratch);
        if !e.ok then ToJpegResult(false, out, outLen, true, e.emitted)
        else
          MemoryPutAllKeepsPrefix(m, NoCallback(), e.emitted);
          assert e.sink == PutAll(MemorySink(m), NoCallback(), e.emitted).0;
          assert m.outBuf + Flatten(e.emitted) == Flatten(e.emitted);
          ToJpegResult(true, HeapBuf(env.jpgBufId, e.sink.mem.outBuf), e.sink.GetSize(), false, e.emitted)
    else
      match env.flat
      case FlatFailed => ToJpegResult(false, out, outLen, false, [])
      case FlatConverted(b) => ToJpegResult(true, HeapBuf(env.jpgBufId, b), |b|, false, [])
  }

  /** Result of `toJpeg_cb`: its return value, the callback argument
      afterwards, and the chunks forwarded to the callback. */
  datatype ToJpegCbResult<S> = ToJpegCbResult(ok: bool, arg: S, emitted: seq<Chunk>)

  /** `toJpeg_cb(src, ..., cb, arg, line_format_2d)`: a fresh callback stream
      over `(cb, arg)` receives every chunk the encoder produces. */
  function ToJpegCb<S>(src: seq<seq<byte>>, srcLen: nat, width: nat, height: nat, format: PixelFormat, quality: nat,
                       ocb: Callback<S>, arg: S, lineFormat2d: bool, env: EncodeEnv): (r: ToJpegCbResult<S>)
    requires width < UINT16_MOD && height < UINT16_MOD && quality < 256
    requires lineFormat2d ==> RowsReadable(src, format, width, height)
    ensures r.arg == PutAll(CallbackSink(CallbackStream(arg, 0)), ocb, r.emitted).0.stream.oarg
    ensures !lineFormat2d ==> r.ok == env.flatCb.ok && r.emitted == env.flatCb.out
    ensures lineFormat2d ==>
      var e := ConvertImage2d(src, width, height, format, quality, CallbackSink(CallbackStream(arg, 0)), ocb,
                              env.jpge, env.yuv, env.lineAllocOk, env.scratch);
      r.ok == e.ok && r.emitted == e.emitted
    ensures lineFormat2d && r.ok ==> env.lineAllocOk
  {
    var sink := CallbackSink(CallbackStream(arg, 0));
    if lineFormat2d then
      var e := ConvertImage2d(src, width, height, format, quality, sink, ocb,
                              env.jpge, env.yuv, env.lineAllocOk, env.scratch);
      ToJpegCbResult(e.ok, e.sink.stream.oarg, e.emitted)
    else
      ToJpegCbResult(env.flatCb.ok, PutAll(sink, ocb, env.flatCb.out).0.stream.oarg, env.flatCb.out)
  }

  /** Whether `toJpeg_cb` succeeds, and what it emits, is the same whatever
      the callback does with the chunks: a callback that accepts nothing
      cannot make the encoding fail. */
  lemma ToJpegCbIgnoresCallback<S, T>(src: seq<seq<byte>>, srcLen: nat, width: nat, height: nat, format: PixelFormat,
                                      quality: nat, ocb1: Callback<S>, arg1: S, ocb2: Callback<T>, arg2: T,
                                      lineFormat2d: bool, env: EncodeEnv)
    requires width < UINT16_MOD && height < UINT16_MOD && quality < 256
    requires lineFormat2d ==> RowsReadable(src, format, width, height)
    ensures var r1 := ToJpegCb(src, srcLen, width, height, format, quality, ocb1, arg1, lineFormat2d, env);
            var r2 := ToJpegCb(src, srcLen, width, height, format, quality, ocb2, arg2, lineFormat2d, env);
            r1.ok == r2.ok && r1.emitted == r2.emitted
  {
    if lineFormat2d {
      ConvertImage2dIgnoresSink(src, width, height, format, quality,
                                CallbackSink(CallbackStream(arg1, 0)), ocb1, CallbackSink(CallbackStream(arg2, 0)), ocb2,
                                env.jpge, env.yuv, env.lineAllocOk, env.scratch);
    }
  }

  /** On the row-pointer path `toJpeg` and `toJpeg_cb` run the same encoding:
      one succeeds exactly when the other does, given a 64 KiB buffer, and
      the callback receives exactly the chunks the memory stream keeps a
      prefix of. */
  lemma ToJpegPathsAgree<S>(src: seq<seq<byte>>, srcLen: nat, width: nat, height: nat, format: PixelFormat,
                            quality: nat, ocb: Callback<S>, arg: S, env: EncodeEnv)
    requires width < UINT16_MOD && height < UINT16_MOD && quality < 256
    requires RowsReadable(src, format, width, height) && env.Valid() && env.jpgBufAllocOk
    ensures var r1 := ToJpeg(src, srcLen, width, height, format, quality, NullBuf, 0, true, env);
            var r2 := ToJpegCb(src, srcLen, width, height, format, quality, ocb, arg, true, env);
            r1.ok == r2.ok && r1.emitted == r2.emitted
  {
    ConvertImage2dIgnoresSink(src, width, height, format, quality,
                              MemorySink(MemoryStream(JPG_BUF_LEN, [])), NoCallback(), CallbackSink(CallbackStream(arg, 0)), ocb,
                              env.jpge, env.yuv, env.lineAllocOk, env.scratch);
  }
}
