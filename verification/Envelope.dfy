/** Length-prefixed frames and the chunked response stream (crates/daemon/src/envelope.rs). */
module Envelope {
  import opened Basics
  import opened Wrappers
  import opened Radix

  const MAX_FRAME_BYTES: nat := 8 * 1024 * 1024
  const U64_LIMIT: nat := 0x1_0000_0000_0000_0000

  type Bytes = seq<byte>

  datatype IpcError = FrameTooLarge(size: nat) | IncompleteFrame(need: nat, have: nat) | Io

  /** Big-endian, in `width` bytes. */
  function BigEndian(n: nat, width: nat): (bs: Bytes)
    ensures |bs| == width
  {
    Digits(n, width, 256)
  }

  lemma WidthsFit()
    ensures MAX_FRAME_BYTES < Pow(256, 4) && Pow(256, 8) == U64_LIMIT
  {
    assert Pow(256, 4) == 0x1_0000_0000;
    assert Pow(256, 6) == 0x1_0000_0000_0000;
    assert Pow(256, 8) == 0x1_0000_0000_0000_0000;
  }

  // ---- Frames ----

  function Frame(payload: Bytes): Bytes {
    BigEndian(|payload|, 4) + payload
  }

  function DecodeFrame(buf: Bytes): (Result<Bytes, IpcError>, Bytes) {
    if |buf| < 4 then (Err(IncompleteFrame(4, |buf|)), buf)
    else
      var len := Value(buf[..4], 256);
      if len > MAX_FRAME_BYTES then (Err(FrameTooLarge(len)), buf)
      else if |buf| < 4 + len then (Err(IncompleteFrame(4 + len, |buf|)), buf)
      else (Ok(buf[4..4 + len]), buf[4 + len..])
  }

  /** A byte source, or the unread part of a buffer. */
  class ByteReader {
    var rest: Bytes

    constructor (bytes: Bytes)
      ensures rest == bytes
    {
      rest := bytes;
    }

    /** Fills n bytes or fails at the end of the stream, having consumed it. */
    method ReadExact(n: nat) returns (r: Result<Bytes, IpcError>)
      modifies this
      ensures |old(rest)| >= n ==> r == Ok(old(rest)[..n]) && rest == old(rest)[n..]
      ensures |old(rest)| < n ==> r == Err(Io) && rest == []
    {
      if |rest| < n {
        rest := [];
        return Err(Io);
      }
      r := Ok(rest[..n]);
      rest := rest[n..];
    }

    method NextFrame() returns (r: Result<Bytes, IpcError>)
      modifies this
      ensures (r, rest) == DecodeFrame(old(rest))
      ensures r.Err? ==> rest == old(rest)
    {
      if |rest| < 4 {
        return Err(IncompleteFrame(4, |rest|));
      }
      var len := Value(rest[..4], 256);
      if len > MAX_FRAME_BYTES {
        return Err(FrameTooLarge(len));
      }
      if |rest| < 4 + len {
        return Err(IncompleteFrame(4 + len, |rest|));
      }
      var payload := rest[4..4 + len];
      rest := rest[4 + len..];
      return Ok(payload);
    }
  }

  /** The cast drops what does not fit in 32 bits; no frame length is that large. */
  function AsU32(n: nat): (m: nat)
    ensures n <= MAX_FRAME_BYTES ==> m == n
  {
    n % 0x1_0000_0000
  }

  method EncodeFrame(payload: Bytes) returns (r: Result<Bytes, IpcError>)
    ensures r == if |payload| > MAX_FRAME_BYTES then Err(FrameTooLarge(|payload|)) else Ok(Frame(payload))
  {
    if |payload| > MAX_FRAME_BYTES {
      return Err(FrameTooLarge(|payload|));
    }
    var len := AsU32(|payload|);
    return Ok(BigEndian(len, 4) + payload);
  }

  lemma FrameParts(payload: Bytes, rest: Bytes)
    requires |payload| <= MAX_FRAME_BYTES
    ensures
      var buf := Frame(payload) + rest;
      && |buf| >= 4 + |payload| && Value(buf[..4], 256) == |payload|
      && buf[4..4 + |payload|] == payload && buf[4 + |payload|..] == rest
  {
    WidthsFit();
    ValueOfDigits(|payload|, 4, 256);
    assert (Frame(payload) + rest)[..4] == BigEndian(|payload|, 4);
  }

  lemma HeaderFromValue(header: Bytes)
    ensures BigEndian(Value(header, 256), |header|) == header
  {
    DigitsOfValue(header, 256);
  }

  lemma FrameFromParts(buf: Bytes, len: nat)
    requires |buf| >= 4 + len && Value(buf[..4], 256) == len
    ensures buf == Frame(buf[4..4 + len]) + buf[4 + len..]
  {
    HeaderFromValue(buf[..4]);
    assert buf == buf[..4] + buf[4..4 + len] + buf[4 + len..];
  }

  /** Decoding takes an encoded frame off the front and leaves exactly what followed it. */
  lemma FrameRoundTrip(payload: Bytes, rest: Bytes)
    requires |payload| <= MAX_FRAME_BYTES
    ensures DecodeFrame(Frame(payload) + rest) == (Ok(payload), rest)
  {
    FrameParts(payload, rest);
  }

  /** Decoding succeeds only on a buffer that starts with the one encoding of the payload. */
  lemma FrameCanonical(buf: Bytes)
    requires DecodeFrame(buf).0.Ok?
    ensures
      var (r, rest) := DecodeFrame(buf);
      |r.value| <= MAX_FRAME_BYTES && buf == Frame(r.value) + rest
  {
    FrameFromParts(buf, Value(buf[..4], 256));
  }

  /** Incremental decoding: success and oversize are final whatever arrives later; an incomplete frame
      whose length is known completes exactly when the number of bytes it names has arrived, and with fewer
      than it names nothing is decided. */
  lemma DecodeIncremental(buf: Bytes, more: Bytes)
    ensures
      var (r, rest) := DecodeFrame(buf);
      var (r', rest') := DecodeFrame(buf + more);
      match r
      case Ok(p) => r' == Ok(p) && rest' == rest + more
      case Err(FrameTooLarge(n)) => r' == r
      case Err(IncompleteFrame(need, have)) =>
        && have == |buf| < need && (|buf| >= 4 ==> (r'.Ok? <==> |buf| + |more| >= need))
        && (|buf| + |more| < need ==> r' == Err(IncompleteFrame(need, |buf| + |more|)))
      case Err(Io) => false
  {
    if |buf| >= 4 {
      assert (buf + more)[..4] == buf[..4];
      var end := 4 + Value(buf[..4], 256);
      if end <= |buf| {
        assert (buf + more)[4..end] == buf[4..end] && (buf + more)[end..] == buf[end..] + more;
      }
    }
  }

  function Frames(payloads: seq<Bytes>): Bytes {
    if payloads == [] then [] else Frame(payloads[0]) + Frames(payloads[1..])
  }

  /** Decoding repeatedly until an error. */
  function DecodeAll(buf: Bytes): (seq<Bytes>, Bytes)
    decreases |buf|
  {
    match DecodeFrame(buf)
    case (Ok(p), rest) => var (ps, end) := DecodeAll(rest); ([p] + ps, end)
    case (Err(_), _) => ([], buf)
  }

  /** Concatenated frames decode to the original sequence, and what follows is left alone. */
  lemma {:induction false} DecodeAllFrames(payloads: seq<Bytes>, tail: Bytes)
    requires WithinCap(payloads)
    requires DecodeFrame(tail).0.Err?
    ensures DecodeAll(Frames(payloads) + tail) == (payloads, tail)
  {
    if payloads == [] {
      assert [] + tail == tail;
    } else {
      var more := Frames(payloads[1..]) + tail;
      assert Frames(payloads) + tail == Frame(payloads[0]) + more;
      FrameRoundTrip(payloads[0], more);
      DecodeAllFrames(payloads[1..], tail);
      assert [payloads[0]] + payloads[1..] == payloads;
    }
  }

  // ---- The response stream ----

  function Concat(chunks: seq<Bytes>): Bytes {
    if chunks == [] then [] else chunks[0] + Concat(chunks[1..])
  }

  lemma {:induction false} FramesSnoc(chunks: seq<Bytes>, c: Bytes)
    ensures Frames(chunks + [c]) == Frames(chunks) + Frame(c)
  {
    if chunks == [] {
      assert [] + [c] == [c] && Frames([c]) == Frame(c) + Frames([]);
    } else {
      assert (chunks + [c])[1..] == chunks[1..] + [c];
      FramesSnoc(chunks[1..], c);
    }
  }

  ghost predicate WithinCap(chunks: seq<Bytes>) {
    forall i :: 0 <= i < |chunks| ==> |chunks[i]| <= MAX_FRAME_BYTES
  }

  /** Within the cap, and no empty chunk at the end. */
  ghost predicate Chunking(chunks: seq<Bytes>) {
    WithinCap(chunks) && (chunks != [] ==> chunks[|chunks| - 1] != [])
  }

  /** All chunks are full except perhaps the last, and none is empty. */
  ghost predicate FullChunks(chunks: seq<Bytes>) {
    && (forall i :: 0 <= i < |chunks| ==> 0 < |chunks[i]| <= MAX_FRAME_BYTES)
    && (forall i :: 0 <= i < |chunks| - 1 ==> |chunks[i]| == MAX_FRAME_BYTES)
  }

  /** The payload cut into full chunks. */
  function Split(payload: Bytes): seq<Bytes> {
    if payload == [] then []
    else
      var n := Min(|payload|, MAX_FRAME_BYTES);
      [payload[..n]] + Split(payload[n..])
  }

  lemma {:induction false} SplitIsChunking(payload: Bytes)
    ensures FullChunks(Split(payload)) && Chunking(Split(payload)) && Concat(Split(payload)) == payload
    decreases |payload|
  {
    if payload == [] {
    } else {
      var n := Min(|payload|, MAX_FRAME_BYTES);
      var rest := Split(payload[n..]);
      SplitIsChunking(payload[n..]);
      assert Split(payload)[1..] == rest && payload == payload[..n] + payload[n..];
      assert n < |payload| ==> rest != [];
    }
  }

  lemma SplitStep(payload: Bytes, at: nat, n: nat)
    requires at < |payload| && n == Min(|payload| - at, MAX_FRAME_BYTES)
    ensures Split(payload[at..]) == [payload[at..at + n]] + Split(payload[at + n..])
  {
    assert payload[at..][..n] == payload[at..at + n] && payload[at..][n..] == payload[at + n..];
  }

  lemma SingleChunk(payload: Bytes)
    requires 0 < |payload| <= MAX_FRAME_BYTES
    ensures Split(payload) == [payload]
  {
    assert payload[..|payload|] == payload;
  }

  /** The loop of the split. */
  method CutFull(payload: Bytes) returns (chunks: seq<Bytes>)
    ensures chunks == Split(payload)
  {
    chunks := [];
    var at := 0;
    assert payload[0..] == payload;
    while at < |payload|
      invariant at <= |payload| && Split(payload) == chunks + Split(payload[at..])
    {
      var n := Min(|payload| - at, MAX_FRAME_BYTES);
      SplitStep(payload, at, n);
      Assoc(chunks, [payload[at..at + n]], Split(payload[at + n..]));
      chunks := chunks + [payload[at..at + n]];
      at := at + n;
    }
  }

  method SplitPayload(payload: Bytes) returns (chunks: seq<Bytes>)
    ensures chunks == Split(payload)
    ensures FullChunks(chunks) && Chunking(chunks) && Concat(chunks) == payload
  {
    SplitIsChunking(payload);
    if payload == [] {
      return [];
    }
    if |payload| <= MAX_FRAME_BYTES {
      SingleChunk(payload);
      return [payload];
    }
    chunks := CutFull(payload);
  }

  /** A length header and the payload in these chunks. */
  function ResponseIn(chunks: seq<Bytes>): Bytes {
    BigEndian(|Concat(chunks)|, 8) + Frames(chunks)
  }

  /** A length header and the payload in full chunks. */
  function Response(payload: Bytes): Bytes {
    BigEndian(|payload|, 8) + Frames(Split(payload))
  }

  /** Memory keeps lengths below 2^64. */
  method WriteResponsePayload(payload: Bytes) returns (written: Bytes)
    requires |payload| < U64_LIMIT
    ensures written == Response(payload)
  {
    var header := BigEndian(|payload|, 8);
    var parts := SplitPayload(payload);
    var body := WriteFrames(parts);
    written := header + body;
  }

  lemma FramesPrefix(parts: seq<Bytes>, i: nat)
    requires i < |parts|
    ensures Frames(parts[..i + 1]) == Frames(parts[..i]) + Frame(parts[i])
  {
    FramesSnoc(parts[..i], parts[i]);
    assert parts[..i + 1] == parts[..i] + [parts[i]];
  }

  /** Length cast to u32, then the bytes. */
  method WriteChunk(chunk: Bytes) returns (written: Bytes)
    requires |chunk| <= MAX_FRAME_BYTES
    ensures written == Frame(chunk)
  {
    var len := AsU32(|chunk|);
    written := BigEndian(len, 4) + chunk;
  }

  method WriteFrames(parts: seq<Bytes>) returns (written: Bytes)
    requires WithinCap(parts)
    ensures written == Frames(parts)
  {
    written := [];
    for i := 0 to |parts|
      invariant written == Frames(parts[..i])
    {
      FramesPrefix(parts, i);
      var chunk := WriteChunk(parts[i]);
      written := written + chunk;
    }
    assert parts[..|parts|] == parts;
  }

  /** One length-prefixed chunk off a stream that may end anywhere. */
  function ReadChunk(s: Bytes): (r: (Result<Bytes, IpcError>, Bytes))
    ensures r.0.Ok? ==> |r.1| < |s|
  {
    if |s| < 4 then (Err(Io), [])
    else
      var len := Value(s[..4], 256);
      if len > MAX_FRAME_BYTES then (Err(FrameTooLarge(len)), s[4..])
      else if |s| < 4 + len then (Err(Io), [])
      else (Ok(s[4..4 + len]), s[4 + len..])
  }

  /** Reading chunks until `total` bytes are there. */
  function ReadChunks(s: Bytes, total: nat, out: Bytes): (Result<Bytes, IpcError>, Bytes)
    decreases |s|
  {
    if |out| >= total then (Ok(out), s)
    else
      match ReadChunk(s)
      case (Err(e), rest) => (Err(e), rest)
      case (Ok(c), rest) =>
        if |out| + |c| > total then (Err(IncompleteFrame(total, |out| + |c|)), rest)
        else ReadChunks(rest, total, out + c)
  }

  function ReadResponse(s: Bytes): (Result<Bytes, IpcError>, Bytes) {
    if |s| < 8 then (Err(Io), []) else ReadChunks(s[8..], Value(s[..8], 256), [])
  }

  method NextChunk(stream: ByteReader) returns (r: Result<Bytes, IpcError>)
    modifies stream
    ensures (r, stream.rest) == ReadChunk(old(stream.rest))
  {
    var prefix := stream.ReadExact(4);
    if prefix.Err? {
      return prefix;
    }
    var len := Value(prefix.value, 256);
    if len > MAX_FRAME_BYTES {
      return Err(FrameTooLarge(len));
    }
    ghost var body := stream.rest;
    if len <= |body| {
      assert body[..len] == old(stream.rest)[4..4 + len] && body[len..] == old(stream.rest)[4 + len..];
    }
    r := stream.ReadExact(len);
  }

  lemma ReadChunksStep(s: Bytes, total: nat, out: Bytes)
    requires |out| < total
    ensures
      var (r, rest) := ReadChunk(s);
      ReadChunks(s, total, out) ==
        if r.Err? then (Err(r.error), rest)
        else if |out| + |r.value| > total then (Err(IncompleteFrame(total, |out| + |r.value|)), rest)
        else ReadChunks(rest, total, out + r.value)
  {
  }

  /** Terminates on every stream, zero-length chunks included: each turn consumes at least a chunk header. */
  method ReadUntil(stream: ByteReader, total: nat) returns (r: Result<Bytes, IpcError>)
    modifies stream
    ensures (r, stream.rest) == ReadChunks(old(stream.rest), total, [])
    ensures r.Ok? ==> |r.value| == total
  {
    var out: Bytes := [];
    ghost var end := ReadChunks(stream.rest, total, []);
    while |out| < total
      invariant ReadChunks(stream.rest, total, out) == end
      invariant |out| <= total
      decreases |stream.rest|
    {
      ReadChunksStep(stream.rest, total, out);
      var chunk := NextChunk(stream);
      if chunk.Err? {
        return chunk;
      }
      if |out| + |chunk.value| > total {
        return Err(IncompleteFrame(total, |out| + |chunk.value|));
      }
      out := out + chunk.value;
    }
    return Ok(out);
  }

  method ReadResponsePayload(stream: ByteReader) returns (r: Result<Bytes, IpcError>)
    modifies stream
    ensures (r, stream.rest) == ReadResponse(old(stream.rest))
    ensures r.Ok? ==> |old(stream.rest)| >= 8 && |r.value| == Value(old(stream.rest)[..8], 256)
  {
    var header := stream.ReadExact(8);
    if header.Err? {
      return header;
    }
    r := ReadUntil(stream, Value(header.value, 256));
  }

  lemma ReadOneChunk(c: Bytes, more: Bytes, total: nat, out: Bytes)
    requires |c| <= MAX_FRAME_BYTES && |out| < total && |out| + |c| <= total
    ensures ReadChunks(Frame(c) + more, total, out) == ReadChunks(more, total, out + c)
  {
    FrameParts(c, more);
  }

  /** One chunk is read, and nothing beyond it, exactly off a stream that starts with its frame; a stream whose first four
      bytes announce more than eight mebibytes is refused, and any other has ended too early. */
  lemma ReadChunkIff(s: Bytes, c: Bytes, rest: Bytes)
    ensures ReadChunk(s) == (Ok(c), rest) <==> |c| <= 8 * 1024 * 1024 && s == Frame(c) + rest
    ensures ReadChunk(s).0.Err? ==>
      ReadChunk(s).0.error == if |s| >= 4 && Value(s[..4], 256) > 8 * 1024 * 1024 then FrameTooLarge(Value(s[..4], 256)) else Io
  {
    if ReadChunk(s) == (Ok(c), rest) {
      FrameFromParts(s, |c|);
    }
    if |c| <= MAX_FRAME_BYTES && s == Frame(c) + rest {
      FrameParts(c, rest);
    }
  }

  /** How many chunks the reader takes: those up to the last byte of payload. */
  function Taken(chunks: seq<Bytes>): (n: nat)
    ensures n <= |chunks|
  {
    if Concat(chunks) == [] then 0 else 1 + Taken(chunks[1..])
  }

  /** For any chunks within the cap, empty ones anywhere included, the loop reassembles the payload and leaves
      the chunks that hold nothing more, and what followed. */
  lemma {:induction false} ReadChunksOfFrames(chunks: seq<Bytes>, out: Bytes, total: nat, rest: Bytes)
    requires WithinCap(chunks) && total == |out| + |Concat(chunks)|
    ensures
      ReadChunks(Frames(chunks) + rest, total, out) == (Ok(out + Concat(chunks)), Frames(chunks[Taken(chunks)..]) + rest)
    decreases |chunks|
  {
    if Concat(chunks) == [] {
      assert chunks[0..] == chunks && out + [] == out;
    } else {
      var c, tail := chunks[0], chunks[1..];
      ReadOneChunk(c, Frames(tail) + rest, total, out);
      Assoc(Frame(c), Frames(tail), rest);
      ReadChunksOfFrames(tail, out + c, total, rest);
      Assoc(out, c, Concat(tail));
      assert chunks[Taken(chunks)..] == tail[Taken(tail)..];
    }
  }

  lemma {:induction false} TakenAllIff(chunks: seq<Bytes>)
    ensures Taken(chunks) == |chunks| <==> chunks == [] || chunks[|chunks| - 1] != []
  {
    if chunks == [] {
    } else if Concat(chunks) == [] {
      if chunks[|chunks| - 1] != [] {
        NonEmptyTail(chunks);
      }
    } else {
      TakenAllIff(chunks[1..]);
    }
  }

  lemma {:induction false} NonEmptyTail(chunks: seq<Bytes>)
    requires chunks != [] && chunks[|chunks| - 1] != []
    ensures |Concat(chunks)| > 0
  {
    if |chunks| > 1 {
      NonEmptyTail(chunks[1..]);
    }
  }

  lemma HeaderParts(n: nat, tail: Bytes)
    requires n < U64_LIMIT
    ensures |BigEndian(n, 8) + tail| >= 8 && Value((BigEndian(n, 8) + tail)[..8], 256) == n && (BigEndian(n, 8) + tail)[8..] == tail
  {
    WidthsFit();
    ValueOfDigits(n, 8, 256);
    assert (BigEndian(n, 8) + tail)[..8] == BigEndian(n, 8);
  }

  lemma HeaderFromParts(s: Bytes, n: nat)
    requires |s| >= 8 && Value(s[..8], 256) == n
    ensures s == BigEndian(n, 8) + s[8..]
  {
    DigitsOfValue(s[..8], 256);
  }

  lemma ReadHeader(n: nat, tail: Bytes)
    requires n < U64_LIMIT
    ensures ReadResponse(BigEndian(n, 8) + tail) == ReadChunks(tail, n, [])
  {
    HeaderParts(n, tail);
  }

  /** Whatever chunks within the cap a payload is sent in, it comes back byte for byte; what remains is the
      chunks after its last byte, and what followed. */
  lemma ReadAnyChunking(chunks: seq<Bytes>, rest: Bytes)
    requires WithinCap(chunks) && |Concat(chunks)| < U64_LIMIT
    ensures ReadResponse(ResponseIn(chunks) + rest) == (Ok(Concat(chunks)), Frames(chunks[Taken(chunks)..]) + rest)
  {
    var n := |Concat(chunks)|;
    Assoc(BigEndian(n, 8), Frames(chunks), rest);
    ReadHeader(n, Frames(chunks) + rest);
    ReadChunksOfFrames(chunks, [], n, rest);
    assert [] + Concat(chunks) == Concat(chunks);
  }

  /** Exactly what followed remains if and only if the last chunk is not empty. */
  lemma RestIffLastNotEmpty(chunks: seq<Bytes>, rest: Bytes)
    requires WithinCap(chunks) && |Concat(chunks)| < U64_LIMIT
    ensures ReadResponse(ResponseIn(chunks) + rest).1 == rest <==> Chunking(chunks)
  {
    ReadAnyChunking(chunks, rest);
    TakenAllIff(chunks);
    var left := chunks[Taken(chunks)..];
    assert |Frames(left) + rest| == |Frames(left)| + |rest|;
    assert left == [] ==> Frames(left) + rest == rest;
    assert left != [] ==> |Frames(left)| >= |Frame(left[0])| >= 4;
  }

  /** Reading what was written gives the payload back and leaves exactly what followed it. */
  lemma ResponseRoundTrip(payload: Bytes, rest: Bytes)
    requires |payload| < U64_LIMIT
    ensures ReadResponse(Response(payload) + rest) == (Ok(payload), rest)
  {
    SplitIsChunking(payload);
    ReadAnyChunking(Split(payload), rest);
    RestIffLastNotEmpty(Split(payload), rest);
  }

  lemma SplitOneChunk(s: Bytes, total: nat, out: Bytes) returns (c: Bytes, more: Bytes)
    requires ReadChunks(s, total, out).0.Ok? && |out| < total
    ensures s == Frame(c) + more && |c| <= MAX_FRAME_BYTES && |out| + |c| <= total
    ensures ReadChunks(s, total, out) == ReadChunks(more, total, out + c)
  {
    c, more := ReadChunk(s).0.value, ReadChunk(s).1;
    FrameFromParts(s, |c|);
  }

  lemma {:induction false} ReadChunksSound(s: Bytes, total: nat, out: Bytes) returns (chunks: seq<Bytes>)
    requires ReadChunks(s, total, out).0.Ok? && |out| <= total
    ensures
      var (r, rest) := ReadChunks(s, total, out);
      Chunking(chunks) && s == Frames(chunks) + rest && r.value == out + Concat(chunks) && |r.value| == total
    decreases |s|
  {
    if |out| == total {
      chunks := [];
    } else {
      var c, more := SplitOneChunk(s, total, out);
      var tail := ReadChunksSound(more, total, out + c);
      chunks := [c] + tail;
      assert chunks[1..] == tail;
      Assoc(out, c, Concat(tail));
      Assoc(Frame(c), Frames(tail), ReadChunks(s, total, out).1);
    }
  }

  /** Any success is some chunking of a payload of exactly the declared length. */
  lemma ReadSound(s: Bytes) returns (chunks: seq<Bytes>)
    requires ReadResponse(s).0.Ok?
    ensures
      var (r, rest) := ReadResponse(s);
      Chunking(chunks) && r.value == Concat(chunks) && s == ResponseIn(chunks) + rest
  {
    var n := Value(s[..8], 256);
    chunks := ReadChunksSound(s[8..], n, []);
    HeaderFromParts(s, n);
    Assoc(BigEndian(n, 8), Frames(chunks), ReadResponse(s).1);
    assert [] + Concat(chunks) == Concat(chunks);
  }
}
