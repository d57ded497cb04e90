/** The two output streams the JPEG encoder writes through: `memory_stream`,
    a fixed-capacity buffer that silently truncates, and `callback_stream`,
    which forwards every chunk to a callback and adds up what it reports. */
module Sinks {
  import opened CTypes

  /** One `put_buf(pBuf, len)` call: `EndOfImage` is the NULL buffer (with a
      length of zero), `Data` a real buffer of `len` bytes. */
  datatype Chunk = EndOfImage | Data(bytes: seq<byte>)

  function ChunkLen(c: Chunk): nat {
    match c
    case EndOfImage => 0
    case Data(b) => |b|
  }

  /** All bytes of a sequence of chunks, in order. */
  function Flatten(chunks: seq<Chunk>): (s: seq<byte>)
  {
    if |chunks| == 0 then []
    else
      match chunks[0]
      case EndOfImage => Flatten(chunks[1..])
      case Data(b) => b + Flatten(chunks[1..])
  }

  // ---------------------------------------------------------------------------
  // memory_stream
  // ---------------------------------------------------------------------------

  /** `out_buf`, `max_len` and `index`: the bytes written so far are
      `outBuf`, so `index` is `|outBuf|`. */
  datatype MemoryStream = MemoryStream(maxLen: nat, outBuf: seq<byte>) {
    predicate Valid() {
      |outBuf| <= maxLen
    }

    /** `get_size()` */
    function GetSize(): nat {
      |outBuf|
    }
  }

  /** `memory_stream::put_buf`: a NULL buffer marks the end of the image and
      changes nothing; otherwise as much of the chunk as still fits is
      appended. The call always reports success, truncated or not. */
  function MemoryPutBuf(m: MemoryStream, c: Chunk): (r: (MemoryStream, bool))
    requires m.Valid()
    ensures r.1
    ensures r.0.Valid() && r.0.maxLen == m.maxLen
    ensures c.EndOfImage? ==> r.0 == m
    ensures c.Data? ==> r.0.GetSize() == m.GetSize() + Min(|c.bytes|, m.maxLen - m.GetSize())
    ensures c.Data? ==> r.0.outBuf == m.outBuf + c.bytes[..Min(|c.bytes|, m.maxLen - m.GetSize())]
  {
    match c
    case EndOfImage => (m, true)
    case Data(b) =>
      var len := if |b| > m.maxLen - |m.outBuf| then m.maxLen - |m.outBuf| else |b|;
      if len != 0 then (MemoryStream(m.maxLen, m.outBuf + b[..len]), true) else (m, true)
  }

  // ---------------------------------------------------------------------------
  // callback_stream
  // ---------------------------------------------------------------------------

  /** `jpg_out_cb`: called with the callback's argument, the stream's current
      index and the chunk; yields the updated argument and the number of bytes
      the callback reports it accepted. */
  type Callback<!S> = (S, nat, Chunk) -> (S, nat)

  /** `oarg` and `index` of a `callback_stream`; the callback itself is passed
      alongside. */
  datatype CallbackStream<S> = CallbackStream(oarg: S, index: nat)

  /** `callback_stream::put_buf`: `index` (a `size_t`) grows by whatever the
      callback returns, and the call reports success whatever happened. */
  function CallbackPutBuf<S>(cs: CallbackStream<S>, ocb: Callback<S>, c: Chunk): (r: (CallbackStream<S>, bool))
    requires cs.index < SIZE_T_MOD
    ensures r.1
    ensures r.0.index < SIZE_T_MOD
    ensures r.0.oarg == ocb(cs.oarg, cs.index, c).0
    ensures (r.0.index - cs.index - ocb(cs.oarg, cs.index, c).1) % SIZE_T_MOD == 0
    ensures ocb(cs.oarg, cs.index, c).1 == 0 ==> r.0.index == cs.index
  {
    var (arg, n) := ocb(cs.oarg, cs.index, c);
    (CallbackStream(arg, AddSizeT(cs.index, n)), true)
  }

  // ---------------------------------------------------------------------------
  // The encoder's view: either stream
  // ---------------------------------------------------------------------------

  /** `jpge::output_stream`, with its two implementations. */
  datatype Sink<S> = MemorySink(mem: MemoryStream) | CallbackSink(stream: CallbackStream<S>) {
    predicate Valid() {
      match this
      case MemorySink(m) => m.Valid()
      case CallbackSink(cs) => cs.index < SIZE_T_MOD
    }

    function GetSize(): nat {
      match this
      case MemorySink(m) => m.GetSize()
      case CallbackSink(cs) => cs.index
    }
  }

  /** Virtual dispatch of `put_buf`. Neither stream ever reports a failure. */
  function PutBuf<S>(sink: Sink<S>, ocb: Callback<S>, c: Chunk): (r: (Sink<S>, bool))
    requires sink.Valid()
    ensures r.1 && r.0.Valid()
    ensures sink.MemorySink? <==> r.0.MemorySink?
    ensures sink.MemorySink? ==> r.0.mem.maxLen == sink.mem.maxLen
  {
    match sink
    case MemorySink(m) =>
      var (m', ok) := MemoryPutBuf(m, c);
      (MemorySink(m'), ok)
    case CallbackSink(cs) =>
      var (cs', ok) := CallbackPutBuf(cs, ocb, c);
      (CallbackSink(cs'), ok)
  }

  /** A run of `put_buf` calls, reporting whether every one of them succeeded. */
  function PutAll<S>(sink: Sink<S>, ocb: Callback<S>, chunks: seq<Chunk>): (r: (Sink<S>, bool))
    requires sink.Valid()
    ensures r.1 && r.0.Valid()
    ensures sink.MemorySink? <==> r.0.MemorySink?
    ensures sink.MemorySink? ==> r.0.mem.maxLen == sink.mem.maxLen
    decreases |chunks|
  {
    if |chunks| == 0 then (sink, true)
    else
      var (s1, ok1) := PutBuf(sink, ocb, chunks[0]);
      var (s2, ok2) := PutAll(s1, ocb, chunks[1..]);
      (s2, ok1 && ok2)
  }

  /** Putting `a` then `b` is putting `a + b`. */
  lemma {:induction false} PutAllAppend<S>(sink: Sink<S>, ocb: Callback<S>, a: seq<Chunk>, b: seq<Chunk>)
    requires sink.Valid()
    ensures PutAll(sink, ocb, a + b).0 == PutAll(PutAll(sink, ocb, a).0, ocb, b).0
    decreases |a|
  {
    if |a| == 0 {
      assert a + b == b;
    } else {
      var s1 := PutBuf(sink, ocb, a[0]).0;
      assert (a + b)[1..] == a[1..] + b;
      PutAllAppend(s1, ocb, a[1..], b);
    }
  }

  /** However the encoder splits its output, a memory stream holds exactly the
      first `max_len - index` bytes of it, no more and in order: the size is
      `min(max_len, index + total)` and nothing past the capacity is written. */
  lemma {:induction false} MemoryPutAllKeepsPrefix<S>(m: MemoryStream, ocb: Callback<S>, chunks: seq<Chunk>)
    requires m.Valid()
    ensures var r := PutAll(MemorySink(m), ocb, chunks).0;
      && r.mem.GetSize() == Min(m.maxLen, m.GetSize() + |Flatten(chunks)|)
      && r.mem.outBuf == (m.outBuf + Flatten(chunks))[..r.mem.GetSize()]
    decreases |chunks|
  {
    if |chunks| > 0 {
      var m1 := MemoryPutBuf(m, chunks[0]).0;
      MemoryPutAllKeepsPrefix(m1, ocb, chunks[1..]);
      var rest := Flatten(chunks[1..]);
      match chunks[0]
      case EndOfImage =>
      case Data(b) =>
        var r := PutAll(MemorySink(m), ocb, chunks).0;
        assert Flatten(chunks) == b + rest;
        var n := m1.GetSize() - m.GetSize();
        if n == |b| {
          assert m.outBuf + b + rest == m.outBuf + (b + rest);
        } else {
          assert m1.GetSize() == m.maxLen;
          assert r.mem == m1 by {
            MemoryFullIgnores(m1, ocb, chunks[1..]);
          }
          assert r.mem.outBuf == (m.outBuf + (b + rest))[..r.mem.GetSize()];
        }
    }
  }

  /** A full memory stream accepts nothing more. */
  lemma {:induction false} MemoryFullIgnores<S>(m: MemoryStream, ocb: Callback<S>, chunks: seq<Chunk>)
    requires m.Valid() && m.GetSize() == m.maxLen
    ensures PutAll(MemorySink(m), ocb, chunks).0 == MemorySink(m)
    decreases |chunks|
  {
    if |chunks| > 0 {
      MemoryFullIgnores(m, ocb, chunks[1..]);
    }
  }

  /** Capacity 10, two six-byte chunks: the second is cut to four bytes. */
  lemma MemoryTruncationExample<S>(ocb: Callback<S>, a: seq<byte>, b: seq<byte>)
    requires |a| == 6 && |b| == 6
    ensures PutAll(MemorySink(MemoryStream(10, [])), ocb, [Data(a), Data(b)]).0.GetSize() == 10
  {
    MemoryPutAllKeepsPrefix(MemoryStream(10, []), ocb, [Data(a), Data(b)]);
    assert Flatten([Data(a), Data(b)]) == a + Flatten([Data(b)]);
    assert Flatten([Data(b)]) == b + Flatten([]);
  }
}
