/** `sendMessage` of websocket/ws.ts: the server's outgoing frames. A
    `Uint8Array` is cut into unmasked frames of at most 125 octets; a
    string or an `ArrayBuffer` goes out as one frame whose length octet is
    the payload length truncated to eight bits.
 */
module WsSend {
  import opened Wrappers
  import opened Bytes
  import opened WsFrame
  import opened WsStream

  /** What `sendMessage` is given. A string is represented by its UTF-8
      encoding, which `TextEncoder` computes. */
  datatype Message = Text(encoded: seq<byte>) | Buffer(bytes: seq<byte>) | View(bytes: seq<byte>)

  /** `maxPayloadSize`. */
  const MAX_CHUNK: nat := 125

  /** `Math.ceil(n / 125)`. */
  function NumChunks(n: nat): (k: nat)
    ensures k * MAX_CHUNK >= n
    ensures k > 0 ==> (k - 1) * MAX_CHUNK < n
    ensures k == 0 <==> n == 0
  {
    (n + MAX_CHUNK - 1) / MAX_CHUNK
  }

  /** `message.subarray(i * 125, i * 125 + 125)`. */
  function Chunk(msg: seq<byte>, i: nat): (c: seq<byte>)
    ensures |c| <= MAX_CHUNK
  {
    Sub(msg, i * MAX_CHUNK, i * MAX_CHUNK + MAX_CHUNK)
  }

  /** Packet `i` of `count`: `[fin | opcode, chunk.length]` and the chunk.
      FIN is set on the last packet only; the first has the binary opcode
      and every later one continues it. */
  function ChunkPacket(msg: seq<byte>, i: nat, count: nat): seq<byte> {
    var fin := if i == count - 1 then 0x80 else 0;
    var opcode := if i == 0 then OP_BINARY else OP_CONTINUATION;
    [fin + opcode, |Chunk(msg, i)|] + Chunk(msg, i)
  }

  /** The packets written for a `Uint8Array`. */
  function SendChunked(msg: seq<byte>): (ps: seq<seq<byte>>)
    ensures |ps| == NumChunks(|msg|)
  {
    var count := NumChunks(|msg|);
    seq(count, i requires 0 <= i < count => ChunkPacket(msg, i, count))
  }

  /** The packet written for a string or an `ArrayBuffer`: the length is
      stored into a `Uint8Array`, which keeps its low eight bits. */
  function SendSingle(data: seq<byte>, isText: bool): (p: seq<byte>)
    ensures |p| == 2 + |data|
    ensures p[0] == (if isText then 0x81 else 0x82) && p[1] == |data| % 256
  {
    [if isText then 0x81 else 0x82, |data| % 256] + data
  }

  /** Everything `sendMessage` writes, in order. */
  function SendMessage(m: Message): (ps: seq<seq<byte>>)
    ensures m.View? ==> |ps| == NumChunks(|m.bytes|)
    ensures !m.View? ==> |ps| == 1
  {
    match m
    case View(bytes) => SendChunked(bytes)
    case Text(encoded) => [SendSingle(encoded, true)]
    case Buffer(bytes) => [SendSingle(bytes, false)]
  }

  // ---------------------------------------------------------------------
  // The chunked path

  /** Each packet is exactly the unmasked frame of RFC 6455 carrying its
      chunk, with FIN on the last packet, the binary opcode on the first
      and the continuation opcode on the others. */
  lemma {:induction false} ChunkPacketIsFrame(msg: seq<byte>, i: nat, count: nat)
    ensures ChunkPacket(msg, i, count)
         == EncodeFrame(i == count - 1, if i == 0 then OP_BINARY else OP_CONTINUATION, None, Chunk(msg, i))
  {
    var c := Chunk(msg, i);
    assert |c| < Pow256(8) by {
      assert Pow256(8) == 0x1_0000_0000_0000_0000;
    }
    assert LengthField(0, |c|) == [|c|];
  }

  /** Read back, every packet is one whole frame with the flags above and
      its chunk as data. */
  lemma PacketsDecode(msg: seq<byte>, i: nat)
    requires i < NumChunks(|msg|)
    ensures var p := SendChunked(msg)[i];
            && ReadFrameWs(p).Ok?
            && ReadFrameWs(p).value == WsFrame(i == NumChunks(|msg|) - 1,
                                               if i == 0 then OP_BINARY else OP_CONTINUATION,
                                               |p|, None, Chunk(msg, i))
  {
    var count := NumChunks(|msg|);
    var fin := i == count - 1;
    var opcode := if i == 0 then OP_BINARY else OP_CONTINUATION;
    var c := Chunk(msg, i);
    assert |c| < Pow256(8) by {
      assert Pow256(8) == 0x1_0000_0000_0000_0000;
    }
    ChunkPacketIsFrame(msg, i, count);
    DecodeEncodedFrame(fin, opcode, None, c, [], WS_MAX_SIZE);
    var p := EncodeFrame(fin, opcode, None, c);
    assert p + [] == p;
    var h := EncodedHeader(fin, opcode, false, |c|);
    UnmaskNoKey(DataOf(p, h));
  }

  /** Only the last packet has FIN; only the first has the binary opcode. */
  lemma FlagsByPosition(msg: seq<byte>, i: nat)
    requires i < NumChunks(|msg|)
    ensures (SendChunked(msg)[i][0] >= 128) <==> i == NumChunks(|msg|) - 1
    ensures SendChunked(msg)[i][0] % 16 == (if i == 0 then OP_BINARY else OP_CONTINUATION)
  {
  }

  /** Every chunk but the last is full; none is empty. */
  lemma ChunkSizes(msg: seq<byte>, i: nat)
    requires i < NumChunks(|msg|)
    ensures i < NumChunks(|msg|) - 1 ==> |Chunk(msg, i)| == MAX_CHUNK
    ensures 0 < |Chunk(msg, i)| <= MAX_CHUNK
  {
  }

  /** The chunks from `k` on, concatenated. */
  function ChunksFrom(msg: seq<byte>, k: nat, count: nat): seq<byte>
    decreases count - k
  {
    if k >= count then [] else Chunk(msg, k) + ChunksFrom(msg, k + 1, count)
  }

  lemma {:induction false} ChunksFromRest(msg: seq<byte>, k: nat)
    requires k <= NumChunks(|msg|)
    ensures k * MAX_CHUNK <= |msg| || k == NumChunks(|msg|)
    ensures ChunksFrom(msg, k, NumChunks(|msg|)) == if k * MAX_CHUNK <= |msg| then msg[k * MAX_CHUNK..] else []
    decreases NumChunks(|msg|) - k
  {
    var count := NumChunks(|msg|);
    if k < count {
      ChunksFromRest(msg, k + 1);
      var a := k * MAX_CHUNK;
      if a + MAX_CHUNK <= |msg| {
        assert msg[a..] == msg[a..a + MAX_CHUNK] + msg[a + MAX_CHUNK..];
      } else {
        assert k + 1 == count;
      }
    }
  }

  /** The chunks, in order, are the message: nothing is lost, repeated or
      reordered. */
  lemma ChunksReassemble(msg: seq<byte>)
    ensures ChunksFrom(msg, 0, NumChunks(|msg|)) == msg
  {
    ChunksFromRest(msg, 0);
  }

  /** An empty `Uint8Array` writes nothing at all, not even an empty frame. */
  lemma EmptyViewSendsNothing()
    ensures SendMessage(View([])) == []
  {
  }

  // ---------------------------------------------------------------------
  // The single-frame path

  /** Up to 125 octets, the single packet is the unmasked final frame of
      the text or binary opcode. */
  lemma SmallSingleIsFrame(data: seq<byte>, isText: bool)
    requires |data| <= 125
    ensures SendSingle(data, isText) == EncodeFrame(true, if isText then OP_TEXT else OP_BINARY, None, data)
  {
    assert |data| < Pow256(8) by {
      assert Pow256(8) == 0x1_0000_0000_0000_0000;
    }
    assert LengthField(0, |data|) == [|data|];
  }

  /** A payload of 256 octets or any multiple of it is announced as an
      empty frame: the reader takes the two header octets as the whole
      frame and the payload as the start of the next. */
  lemma WrappedLengthReadsEmpty(data: seq<byte>, isText: bool)
    requires |data| > 0 && |data| % 256 == 0
    ensures ReadFrameWs(SendSingle(data, isText)).Ok?
    ensures ReadFrameWs(SendSingle(data, isText)).value.length == 2
    ensures ReadFrameWs(SendSingle(data, isText)).value.data == []
  {
  }

  /** From 126 octets on, the packet is not the frame of its payload. */
  lemma LongSingleIsNotFrame(data: seq<byte>, isText: bool)
    requires 126 <= |data| < Pow256(8)
    ensures SendSingle(data, isText) != EncodeFrame(true, if isText then OP_TEXT else OP_BINARY, None, data)
  {
    var p := SendSingle(data, isText);
    var f := EncodeFrame(true, if isText then OP_TEXT else OP_BINARY, None, data);
    assert |LengthField(0, |data|)| > 1;
    assert |f| > |p|;
  }

  /** The single frame with the length field of RFC 6455 section 5.2: 16-
      or 64-bit extended lengths from 126 octets on. */
  function SendSingleCorrected(data: seq<byte>, isText: bool): (p: seq<byte>)
    requires |data| < Pow256(8)
    ensures |data| <= 125 ==> p == SendSingle(data, isText)
  {
    if |data| <= 125 then SmallSingleIsFrame(data, isText); SendSingle(data, isText)
    else EncodeFrame(true, if isText then OP_TEXT else OP_BINARY, None, data)
  }

  /** Whatever its size within the reader's limit, the corrected packet is
      read back as one final frame carrying the whole payload. */
  lemma CorrectedSingleDecodes(data: seq<byte>, isText: bool)
    requires |data| <= WS_MAX_SIZE
    ensures WS_MAX_SIZE < Pow256(8)
    ensures var p := SendSingleCorrected(data, isText);
            && ReadFrameWs(p).Ok?
            && ReadFrameWs(p).value == WsFrame(true, if isText then OP_TEXT else OP_BINARY, |p|, None, data)
  {
    assert Pow256(8) == 0x1_0000_0000_0000_0000;
    var op := if isText then OP_TEXT else OP_BINARY;
    var p := SendSingleCorrected(data, isText);
    if |data| <= 125 {
      SmallSingleIsFrame(data, isText);
    }
    assert p == EncodeFrame(true, op, None, data);
    DecodeEncodedFrame(true, op, None, data, [], WS_MAX_SIZE);
    assert p + [] == p;
    var h := EncodedHeader(true, op, false, |data|);
    UnmaskNoKey(DataOf(p, h));
  }
}
