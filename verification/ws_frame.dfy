/** The WebSocket base framing decoders and masking (RFC 6455 sections 5.2
    and 5.3): `readFrame` and `unmask` of websocket/ws-utils.ts and the
    `readFrame`, `readFrameHeader` and `unmask` of websocket/ws.ts, with a
    frame encoder as the decoders' reference.

    The two files decode the same header; they differ in the largest
    64-bit length they accept and in what their `length` field means.
 */
module WsFrame {
  import opened Wrappers
  import opened Bytes

  /** The opcodes of the `OpCode` enum. */
  const OP_CONTINUATION: nat := 0x0
  const OP_TEXT: nat := 0x1
  const OP_BINARY: nat := 0x2
  const OP_CLOSE: nat := 0x8
  const OP_PING: nat := 0x9
  const OP_PONG: nat := 0xA

  /** `MAX_MESSAGE_SIZE` of websocket/ws-utils.ts and of websocket/ws.ts. */
  const UTILS_MAX_SIZE: nat := 0xFF_FFFF
  const WS_MAX_SIZE: nat := 0xFFFF_FFFF

  const MAX_SIZE_ERROR := "MAX MESSAGE SIZE"

  /** The fixed part of a frame header. */
  datatype Header = Header(fin: bool, opcode: nat, masked: bool, payloadLength: nat, payloadOffset: nat)

  /** The octets the whole frame occupies: header, masking key, payload. */
  function FrameLength(h: Header): nat {
    h.payloadOffset + (if h.masked then 4 else 0) + h.payloadLength
  }

  /** The header as both decoders read it. Octets 0 and 1 are read with
      `buf[i] & mask`, so a missing one reads as 0; the extended lengths are
      read through a `DataView`, which throws past the end. */
  function DecodeHeader(buf: seq<byte>, maxSize: nat): (r: Result<Header>)
    ensures r.Ok? ==> r.value.fin == (At(buf, 0) >= 128) && r.value.opcode == At(buf, 0) % 16
    ensures r.Ok? ==> r.value.masked == (At(buf, 1) >= 128) && r.value.opcode < 16
    ensures At(buf, 1) % 128 <= 125 ==>
              r.Ok? && r.value.payloadLength == At(buf, 1) % 128 && r.value.payloadOffset == 2
    ensures At(buf, 1) % 128 == 126 ==>
              (r.Ok? <==> 4 <= |buf|)
              && (r.Ok? ==> r.value.payloadLength == U16(buf[2], buf[3]) && r.value.payloadOffset == 4)
              && (r.Err? ==> r.error == RANGE_ERROR)
    ensures At(buf, 1) % 128 == 127 ==>
              (r.Ok? <==> 10 <= |buf| && BeValue(buf[2..10]) <= maxSize)
              && (r.Ok? ==> r.value.payloadLength == BeValue(buf[2..10]) && r.value.payloadOffset == 10)
              && (|buf| < 10 ==> r == Err(RANGE_ERROR))
              && (10 <= |buf| && BeValue(buf[2..10]) > maxSize ==> r == Err(MAX_SIZE_ERROR))
    ensures r.Ok? ==> FrameLength(r.value) >= 2
  {
    var b0 := At(buf, 0);
    var b1 := At(buf, 1);
    var fin := b0 >= 128;
    var opcode := b0 % 16;
    var masked := b1 >= 128;
    var len7 := b1 % 128;
    if len7 == 126 then
      if |buf| < 4 then Err(RANGE_ERROR)
      else Ok(Header(fin, opcode, masked, U16(buf[2], buf[3]), 4))
    else if len7 == 127 then
      if |buf| < 10 then Err(RANGE_ERROR)
      else if BeValue(buf[2..10]) > maxSize then Err(MAX_SIZE_ERROR)
      else Ok(Header(fin, opcode, masked, BeValue(buf[2..10]), 10))
    else Ok(Header(fin, opcode, masked, len7, 2))
  }

  /** The masking key: the four octets after the header, clamped to the buffer. */
  function MaskOf(buf: seq<byte>, h: Header): (m: Option<seq<byte>>)
    ensures m.Some? <==> h.masked
    ensures m.Some? && h.payloadOffset + 4 <= |buf| ==> m.value == buf[h.payloadOffset..h.payloadOffset + 4]
  {
    if h.masked then Some(Sub(buf, h.payloadOffset, h.payloadOffset + 4)) else None
  }

  /** The payload octets the buffer holds, up to the payload length. */
  function DataOf(buf: seq<byte>, h: Header): (d: seq<byte>)
    ensures FrameLength(h) <= |buf| ==>
              d == buf[FrameLength(h) - h.payloadLength..FrameLength(h)]
    ensures |d| <= h.payloadLength
  {
    var start := h.payloadOffset + (if h.masked then 4 else 0);
    Sub(buf, start, start + h.payloadLength)
  }

  /** The `Frame` of websocket/ws-utils.ts: `length` is the payload length. */
  datatype UtilsFrame = UtilsFrame(fin: bool, opcode: nat, length: nat, frameLength: nat,
                                   mask: Option<seq<byte>>, data: seq<byte>)

  /** `readFrame` of websocket/ws-utils.ts. */
  function ReadFrameUtils(buf: seq<byte>): (r: Result<UtilsFrame>)
    ensures r.Ok? <==> DecodeHeader(buf, UTILS_MAX_SIZE).Ok?
    ensures r.Ok? ==> var h := DecodeHeader(buf, UTILS_MAX_SIZE).value;
              && r.value.length == h.payloadLength
              && r.value.frameLength == FrameLength(h)
              && r.value.length <= r.value.frameLength
  {
    var h :- DecodeHeader(buf, UTILS_MAX_SIZE);
    Ok(UtilsFrame(h.fin, h.opcode, h.payloadLength, FrameLength(h), MaskOf(buf, h), DataOf(buf, h)))
  }

  /** The `Frame` of websocket/ws.ts: `length` is the size of the whole frame. */
  datatype WsFrame = WsFrame(fin: bool, opcode: nat, length: nat, mask: Option<seq<byte>>, data: seq<byte>)

  /** `readFrame` of websocket/ws.ts. */
  function ReadFrameWs(buf: seq<byte>): (r: Result<WsFrame>)
    ensures r.Ok? <==> DecodeHeader(buf, WS_MAX_SIZE).Ok?
    ensures r.Ok? ==> r.value.length == FrameLength(DecodeHeader(buf, WS_MAX_SIZE).value) && r.value.length >= 2
  {
    var h :- DecodeHeader(buf, WS_MAX_SIZE);
    Ok(WsFrame(h.fin, h.opcode, FrameLength(h), MaskOf(buf, h), DataOf(buf, h)))
  }

  /** What `readFrameHeader` returns: `length` is the payload length. */
  datatype FrameHead = FrameHead(fin: bool, opcode: nat, length: nat, mask: Option<seq<byte>>)

  /** `readFrameHeader` of websocket/ws.ts. */
  function ReadFrameHeader(buf: seq<byte>): (r: Result<FrameHead>)
    ensures r.Ok? <==> DecodeHeader(buf, WS_MAX_SIZE).Ok?
    ensures r.Ok? ==> r.value.length == DecodeHeader(buf, WS_MAX_SIZE).value.payloadLength
  {
    var h :- DecodeHeader(buf, WS_MAX_SIZE);
    Ok(FrameHead(h.fin, h.opcode, h.payloadLength, MaskOf(buf, h)))
  }

  /** The decoders agree on every field but `length`: the frame decoder
      counts the whole frame, the header decoder the payload. */
  lemma HeaderAgreesWithFrame(buf: seq<byte>)
    requires ReadFrameWs(buf).Ok?
    ensures var f := ReadFrameWs(buf).value;
            var h := ReadFrameHeader(buf).value;
            && h.fin == f.fin && h.opcode == f.opcode && h.mask == f.mask
            && f.length == h.length + 2 + (if h.mask.Some? then 4 else 0)
                          + (if At(buf, 1) % 128 == 126 then 2 else if At(buf, 1) % 128 == 127 then 8 else 0)
  {
  }

  /** The two `readFrame`s decode the same frame as long as a 64-bit length
      is within the smaller limit; only the meaning of `length` differs. */
  lemma UtilsAgreesWithWs(buf: seq<byte>)
    requires ReadFrameUtils(buf).Ok?
    ensures ReadFrameWs(buf).Ok?
    ensures var u := ReadFrameUtils(buf).value;
            var w := ReadFrameWs(buf).value;
            u.fin == w.fin && u.opcode == w.opcode && u.mask == w.mask && u.data == w.data
            && u.frameLength == w.length
  {
  }

  /** A 64-bit length between the two limits is accepted by websocket/ws.ts only. */
  lemma LimitsDiffer(b0: byte, b1: byte, len: nat, rest: seq<byte>)
    requires b1 % 128 == 127 && UTILS_MAX_SIZE < len <= WS_MAX_SIZE
    ensures ReadFrameUtils([b0, b1] + BeBytes(len, 8) + rest) == Err(MAX_SIZE_ERROR)
    ensures ReadFrameWs([b0, b1] + BeBytes(len, 8) + rest).Ok?
  {
    var buf := [b0, b1] + BeBytes(len, 8) + rest;
    assert buf[2..10] == BeBytes(len, 8);
    BeValueOfBeBytes(len, 8);
  }

  // ---------------------------------------------------------------------
  // Masking

  /** `unmask(payload, mask)`: octet `i` is XORed with `mask[i & 3]`; a key
      octet the mask does not hold reads as `undefined`, i.e. 0. */
  function Unmask(payload: seq<byte>, mask: seq<byte>): (r: seq<byte>)
    ensures |r| == |payload|
    ensures forall i :: 0 <= i < |r| ==> r[i] == Xor(payload[i], At(mask, i % 4))
  {
    seq(|payload|, i requires 0 <= i < |payload| => Xor(payload[i], At(mask, i % 4)))
  }

  /** Masking is its own inverse (RFC 6455 section 5.3). */
  lemma UnmaskInvolution(payload: seq<byte>, mask: seq<byte>)
    ensures Unmask(Unmask(payload, mask), mask) == payload
  {
    var once := Unmask(payload, mask);
    var twice := Unmask(once, mask);
    forall i | 0 <= i < |payload|
      ensures twice[i] == payload[i]
    {
      XorTwice(payload[i], At(mask, i % 4));
    }
  }

  /** An all-zero key changes nothing. */
  lemma UnmaskZeroKey(payload: seq<byte>)
    ensures Unmask(payload, [0, 0, 0, 0]) == payload
  {
    forall i | 0 <= i < |payload|
      ensures Unmask(payload, [0, 0, 0, 0])[i] == payload[i]
    {
      XorZero(payload[i]);
    }
  }

  /** A key of no octets leaves the payload unchanged: every `mask[i & 3]`
      is `undefined`, which `^=` reads as 0. (A `null` key throws instead;
      see `WsStream.UnmaskedFrameFails`.) */
  lemma UnmaskNoKey(payload: seq<byte>)
    ensures Unmask(payload, []) == payload
  {
    UnmaskZeroKey(payload);
    assert Unmask(payload, []) == Unmask(payload, [0, 0, 0, 0]);
  }

  /** Unmasking a prefix is the prefix of the unmasked payload. */
  lemma UnmaskPrefix(payload: seq<byte>, mask: seq<byte>, k: nat)
    requires k <= |payload|
    ensures Unmask(payload[..k], mask) == Unmask(payload, mask)[..k]
  {
  }

  // ---------------------------------------------------------------------
  // The encoder the decoders invert

  /** The payload-length field in its shortest form (RFC 6455 section 5.2):
      seven bits up to 125, 126 and a 16-bit length below 2^16, 127 and a
      64-bit length beyond. */
  function LengthField(maskBit: nat, n: nat): (r: seq<byte>)
    requires maskBit == 0 || maskBit == 128
    requires n < Pow256(8)
    ensures |r| == (if n <= 125 then 1 else if n < 0x1_0000 then 3 else 9)
    ensures r[0] / 128 == maskBit / 128
  {
    if n <= 125 then [maskBit + n]
    else
      assert Pow256(2) == 0x1_0000;
      if n < 0x1_0000 then [maskBit + 126] + BeBytes(n, 2) else [maskBit + 127] + BeBytes(n, 8)
  }

  /** A frame: FIN and opcode, mask bit and length, masking key, and the
      payload masked with it. */
  function EncodeFrame(fin: bool, opcode: nat, mask: Option<seq<byte>>, payload: seq<byte>): (r: seq<byte>)
    requires opcode < 16 && (mask.Some? ==> |mask.value| == 4) && |payload| < Pow256(8)
    ensures |r| == 1 + |LengthField(0, |payload|)| + (if mask.Some? then 4 else 0) + |payload|
  {
    HeadOctets(fin, opcode, mask.Some?, |payload|) + MaskedBody(mask, payload)
  }

  /** The first octet and the length field. */
  function HeadOctets(fin: bool, opcode: nat, masked: bool, n: nat): (r: seq<byte>)
    requires opcode < 16 && n < Pow256(8)
    ensures |r| == EncodedHeader(fin, opcode, masked, n).payloadOffset
  {
    [(if fin then 128 else 0) + opcode] + LengthField(if masked then 128 else 0, n)
  }

  /** The key, if any, and the payload masked with it. */
  function MaskedBody(mask: Option<seq<byte>>, payload: seq<byte>): seq<byte> {
    match mask
    case None => payload
    case Some(key) => key + Unmask(payload, key)
  }

  /** The header a frame decodes to. */
  function EncodedHeader(fin: bool, opcode: nat, masked: bool, n: nat): Header {
    Header(fin, opcode, masked, n, if n <= 125 then 2 else if n < 0x1_0000 then 4 else 10)
  }

  /** The header of an encoded frame decodes to what was encoded. */
  lemma EncodedHeaderDecodes(fin: bool, opcode: nat, mask: Option<seq<byte>>, payload: seq<byte>,
                             rest: seq<byte>, maxSize: nat)
    requires opcode < 16 && (mask.Some? ==> |mask.value| == 4) && |payload| < Pow256(8)
    requires |payload| >= 0x1_0000 ==> |payload| <= maxSize
    ensures DecodeHeader(EncodeFrame(fin, opcode, mask, payload) + rest, maxSize)
         == Ok(EncodedHeader(fin, opcode, mask.Some?, |payload|))
  {
    var head := HeadOctets(fin, opcode, mask.Some?, |payload|);
    var body := MaskedBody(mask, payload);
    assert head + body + rest == head + (body + rest);
    HeadDecodes(fin, opcode, mask.Some?, |payload|, body + rest, maxSize);
  }

  /** The first octet carries FIN in its top bit and the opcode in its low
      four bits. */
  lemma FirstOctet(fin: bool, opcode: nat)
    requires opcode < 16
    ensures var b0 := (if fin then 128 else 0) + opcode;
            b0 < 256 && (b0 >= 128 <==> fin) && b0 % 16 == opcode
  {
  }

  /** The header octets, whatever follows them, decode to the header. */
  lemma HeadDecodes(fin: bool, opcode: nat, masked: bool, n: nat, tail: seq<byte>, maxSize: nat)
    requires opcode < 16 && n < Pow256(8) && (n >= 0x1_0000 ==> n <= maxSize)
    ensures DecodeHeader(HeadOctets(fin, opcode, masked, n) + tail, maxSize) == Ok(EncodedHeader(fin, opcode, masked, n))
  {
    FirstOctet(fin, opcode);
    var b0 := (if fin then 128 else 0) + opcode;
    var maskBit := if masked then 128 else 0;
    assert HeadOctets(fin, opcode, masked, n) + tail == [b0] + LengthField(maskBit, n) + tail;
    LengthFieldDecodes(b0, maskBit, n, tail, maxSize);
  }

  /** The length field, after the first octet, decodes to the length. */
  lemma LengthFieldDecodes(b0: byte, maskBit: nat, n: nat, tail: seq<byte>, maxSize: nat)
    requires maskBit == 0 || maskBit == 128
    requires n < Pow256(8) && (n >= 0x1_0000 ==> n <= maxSize)
    ensures DecodeHeader([b0] + LengthField(maskBit, n) + tail, maxSize)
         == Ok(Header(b0 >= 128, b0 % 16, maskBit == 128, n, if n <= 125 then 2 else if n < 0x1_0000 then 4 else 10))
  {
    var field := LengthField(maskBit, n);
    if n <= 125 {
      assert [b0] + field + tail == [b0, maskBit + n] + tail;
      HeaderOctets(b0, maskBit + n, [], tail, maxSize);
      assert [b0, maskBit + n] + [] + tail == [b0, maskBit + n] + tail;
    } else if n < 0x1_0000 {
      Be16IsBeBytes(n);
      assert [b0] + field + tail == [b0, maskBit + 126] + Be16(n) + tail;
      HeaderOctets(b0, maskBit + 126, Be16(n), tail, maxSize);
    } else {
      assert [b0] + field + tail == [b0, maskBit + 127] + BeBytes(n, 8) + tail;
      BeValueOfBeBytes(n, 8);
      HeaderOctets(b0, maskBit + 127, BeBytes(n, 8), tail, maxSize);
    }
  }

  /** The first two octets, an extended length of the size the second one
      announces, and anything after them. */
  lemma HeaderOctets(b0: byte, b1: byte, ext: seq<byte>, tail: seq<byte>, maxSize: nat)
    requires |ext| == (if b1 % 128 == 126 then 2 else if b1 % 128 == 127 then 8 else 0)
    requires b1 % 128 == 127 ==> BeValue(ext) <= maxSize
    ensures var buf := [b0, b1] + ext + tail;
            DecodeHeader(buf, maxSize)
            == Ok(Header(b0 >= 128, b0 % 16, b1 >= 128,
                         if b1 % 128 == 126 then U16(ext[0], ext[1])
                         else if b1 % 128 == 127 then BeValue(ext) else b1 % 128,
                         |ext| + 2))
  {
    var buf := [b0, b1] + ext + tail;
    assert At(buf, 0) == b0 && At(buf, 1) == b1;
    if |ext| > 0 {
      assert buf[2..2 + |ext|] == ext;
      assert buf[2] == ext[0] && buf[3] == ext[1];
    }
  }

  /** Decoding an encoded frame, whatever follows it, gives back FIN, the
      opcode, the key and the payload (once unmasked), and the frame's size;
      the only condition is the decoder's size limit. */
  lemma DecodeEncodedFrame(fin: bool, opcode: nat, mask: Option<seq<byte>>, payload: seq<byte>,
                           rest: seq<byte>, maxSize: nat)
    requires opcode < 16 && (mask.Some? ==> |mask.value| == 4) && |payload| < Pow256(8)
    requires |payload| >= 0x1_0000 ==> |payload| <= maxSize
    ensures var buf := EncodeFrame(fin, opcode, mask, payload) + rest;
            var h := EncodedHeader(fin, opcode, mask.Some?, |payload|);
            && DecodeHeader(buf, maxSize) == Ok(h)
            && FrameLength(h) == |EncodeFrame(fin, opcode, mask, payload)|
            && MaskOf(buf, h) == mask
            && Unmask(DataOf(buf, h), if mask.Some? then mask.value else []) == payload
  {
    EncodedHeaderDecodes(fin, opcode, mask, payload, rest, maxSize);
    match mask
    case None => UnmaskedBodyDecodes(fin, opcode, payload, rest);
    case Some(key) => MaskedBodyDecodes(fin, opcode, key, payload, rest);
  }

  lemma UnmaskedBodyDecodes(fin: bool, opcode: nat, payload: seq<byte>, rest: seq<byte>)
    requires opcode < 16 && |payload| < Pow256(8)
    ensures var buf := EncodeFrame(fin, opcode, None, payload) + rest;
            var h := EncodedHeader(fin, opcode, false, |payload|);
            MaskOf(buf, h) == None && Unmask(DataOf(buf, h), []) == payload
  {
    var head := HeadOctets(fin, opcode, false, |payload|);
    var buf := EncodeFrame(fin, opcode, None, payload) + rest;
    assert buf == head + [] + payload + rest;
    PayloadAfter(head, [], payload, rest);
    UnmaskNoKey(payload);
  }

  lemma MaskedBodyDecodes(fin: bool, opcode: nat, key: seq<byte>, payload: seq<byte>, rest: seq<byte>)
    requires opcode < 16 && |key| == 4 && |payload| < Pow256(8)
    ensures var buf := EncodeFrame(fin, opcode, Some(key), payload) + rest;
            var h := EncodedHeader(fin, opcode, true, |payload|);
            MaskOf(buf, h) == Some(key) && Unmask(DataOf(buf, h), key) == payload
  {
    var head := HeadOctets(fin, opcode, true, |payload|);
    var buf := EncodeFrame(fin, opcode, Some(key), payload) + rest;
    var body := Unmask(payload, key);
    assert buf == head + key + body + rest;
    PayloadAfter(head, key, body, rest);
    UnmaskInvolution(payload, key);
  }

  /** Slicing a header, key and body back out of their concatenation. */
  lemma PayloadAfter(head: seq<byte>, key: seq<byte>, body: seq<byte>, rest: seq<byte>)
    ensures var buf := head + key + body + rest;
            && buf[|head|..|head| + |key|] == key
            && buf[|head| + |key|..|head| + |key| + |body|] == body
  {
    var buf := head + key + body + rest;
    assert buf == head + (key + (body + rest));
  }
}
