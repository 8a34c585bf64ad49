/** The deframing `TransformStream` of `handleWebSocketStream`
    (websocket/ws.ts): received chunks are appended to a buffer, and every
    complete frame at its head is unmasked, emitted and cut off.
 */
module WsStream {
  import opened Wrappers
  import opened Bytes
  import opened WsFrame

  /** Concatenation of a sequence of octet strings. */
  function Flatten(parts: seq<seq<byte>>): (r: seq<byte>)
  {
    if |parts| == 0 then [] else parts[0] + Flatten(parts[1..])
  }

  lemma FlattenCons(raw: seq<byte>, raws: seq<seq<byte>>)
    ensures Flatten([raw] + raws) == raw + Flatten(raws)
  {
    assert ([raw] + raws)[1..] == raws;
  }

  /** A decoded frame as it is enqueued: `unmask(frame.data, frame.mask!)`
      has rewritten its data in place. */
  function Delivered(f: WsFrame): (g: WsFrame)
    ensures g.fin == f.fin && g.opcode == f.opcode && g.length == f.length && g.mask == f.mask
    ensures |g.data| == |f.data|
  {
    match f.mask
    case None => f
    case Some(key) => f.(data := Unmask(f.data, key))
  }

  /** Masking the delivered data again gives back the octets on the wire. */
  lemma DeliveredRemasks(f: WsFrame)
    requires f.mask.Some?
    ensures Unmask(Delivered(f).data, f.mask.value) == f.data
  {
    UnmaskInvolution(f.data, f.mask.value);
  }

  /** What draining a buffer gives: the frames enqueued, the raw octets
      each was cut from, what stays buffered, and the error the stream was
      failed with, if any. */
  datatype Deframed = Deframed(frames: seq<WsFrame>, raws: seq<seq<byte>>, rest: seq<byte>, error: Option<string>)

  function Prepend(f: WsFrame, raw: seq<byte>, d: Deframed): Deframed {
    Deframed([f] + d.frames, [raw] + d.raws, d.rest, d.error)
  }

  /** `raw` is exactly one frame, which decodes to `f` before unmasking. */
  predicate IsCut(raw: seq<byte>, f: WsFrame) {
    && ReadFrameWs(raw).Ok?
    && ReadFrameWs(raw).value.length == |raw|
    && f == Delivered(ReadFrameWs(raw).value)
  }

  /** Every raw piece is exactly one frame, which decodes to the frame
      emitted for it. */
  predicate AllCut(raws: seq<seq<byte>>, frames: seq<WsFrame>) {
    && |raws| == |frames|
    && (|raws| == 0 || (IsCut(raws[0], frames[0]) && AllCut(raws[1..], frames[1..])))
  }

  predicate WellCut(d: Deframed) {
    AllCut(d.raws, d.frames)
  }

  /** The recursive statement read at one index. */
  lemma {:induction false} AllCutAt(raws: seq<seq<byte>>, frames: seq<WsFrame>, i: nat)
    requires AllCut(raws, frames) && i < |raws|
    ensures IsCut(raws[i], frames[i])
  {
    if i > 0 {
      AllCutAt(raws[1..], frames[1..], i - 1);
    }
  }

  // ---------------------------------------------------------------------
  // Decoding a prefix

  /** The octets a frame occupies decide its decoding: octets after it do
      not change it. */
  lemma ReadFrameExtends(a: seq<byte>, c: seq<byte>)
    requires ReadFrameWs(a).Ok? && ReadFrameWs(a).value.length <= |a|
    ensures ReadFrameWs(a + c) == ReadFrameWs(a)
  {
    var h := DecodeHeader(a, WS_MAX_SIZE).value;
    HeaderExtends(a, c, WS_MAX_SIZE);
    var off := h.payloadOffset;
    var end := FrameLength(h);
    if h.masked {
      SubExtends(a, c, off, off + 4);
    }
    SubExtends(a, c, end - h.payloadLength, end);
  }

  /** Octets after a complete header do not change it. */
  lemma HeaderExtends(a: seq<byte>, c: seq<byte>, maxSize: nat)
    requires DecodeHeader(a, maxSize).Ok? && DecodeHeader(a, maxSize).value.payloadOffset <= |a|
    ensures DecodeHeader(a + c, maxSize) == DecodeHeader(a, maxSize)
  {
    var b := a + c;
    assert At(b, 0) == At(a, 0) && At(b, 1) == At(a, 1);
    if At(a, 1) % 128 == 127 {
      assert b[2..10] == a[2..10];
    }
  }

  lemma SubExtends(a: seq<byte>, c: seq<byte>, i: nat, j: nat)
    requires j <= |a|
    ensures Sub(a + c, i, j) == Sub(a, i, j)
  {
    if i <= j {
      assert (a + c)[i..j] == a[i..j];
    }
  }

  lemma ReadFramePrefix(buf: seq<byte>, k: nat)
    requires ReadFrameWs(buf).Ok? && ReadFrameWs(buf).value.length <= k <= |buf|
    ensures ReadFrameWs(buf[..k]) == ReadFrameWs(buf)
  {
    var h := DecodeHeader(buf, WS_MAX_SIZE).value;
    var a := buf[..k];
    assert At(a, 0) == At(buf, 0) && At(a, 1) == At(buf, 1);
    if At(buf, 1) % 128 == 127 {
      assert a[2..10] == buf[2..10];
    }
    assert DecodeHeader(a, WS_MAX_SIZE) == Ok(h);
    ReadFrameExtends(a, buf[k..]);
    assert a + buf[k..] == buf;
  }

  // ---------------------------------------------------------------------
  // The loop as written

  /** The `while (buffer.length > 0)` loop of `transform`. A frame is cut
      off when the buffer holds all `frame.length` octets. `readFrame`
      throwing (a 16- or 64-bit length the buffer does not yet hold, or one
      past the size limit), or `unmask` reading a `null` mask for an
      unmasked frame with a payload, fails the stream with that error. */
  function Drain(buffer: seq<byte>): (r: Deframed)
    ensures |r.frames| == |r.raws|
    decreases |buffer|
  {
    if |buffer| == 0 then Deframed([], [], [], None)
    else
      match ReadFrameWs(buffer)
      case Err(e) => Deframed([], [], buffer, Some(e))
      case Ok(f) =>
        if |buffer| < f.length then Deframed([], [], buffer, None)
        else if f.mask.None? && |f.data| > 0 then Deframed([], [], buffer, Some(TYPE_ERROR))
        else Prepend(Delivered(f), buffer[..f.length], Drain(buffer[f.length..]))
  }

  /** Nothing is lost or reordered: the frames cut off, followed by what
      stays buffered, are exactly the octets received. */
  lemma {:induction false} DrainKeepsOctets(buffer: seq<byte>)
    ensures Flatten(Drain(buffer).raws) + Drain(buffer).rest == buffer
    decreases |buffer|
  {
    if |buffer| > 0 && ReadFrameWs(buffer).Ok? {
      var f := ReadFrameWs(buffer).value;
      if |buffer| >= f.length && !(f.mask.None? && |f.data| > 0) {
        var raw := buffer[..f.length];
        var tail := buffer[f.length..];
        DrainKeepsOctets(tail);
        DrainUnfolds(buffer);
        KeepsStep(raw, tail, Drain(tail).raws, Drain(tail).rest);
        SplitAt(buffer, f.length);
      }
    }
  }

  lemma KeepsStep(raw: seq<byte>, tail: seq<byte>, raws: seq<seq<byte>>, rest: seq<byte>)
    requires Flatten(raws) + rest == tail
    ensures Flatten([raw] + raws) + rest == raw + tail
  {
    FlattenCons(raw, raws);
  }

  lemma SplitAt(s: seq<byte>, n: nat)
    requires n <= |s|
    ensures s[..n] + s[n..] == s
  {
  }

  /** Every piece cut off is one whole frame, which decodes to the frame
      enqueued for it. */
  lemma {:induction false} DrainCutsFrames(buffer: seq<byte>)
    ensures WellCut(Drain(buffer))
    decreases |buffer|
  {
    if |buffer| > 0 && ReadFrameWs(buffer).Ok? {
      var f := ReadFrameWs(buffer).value;
      if |buffer| >= f.length && !(f.mask.None? && |f.data| > 0) {
        var raw := buffer[..f.length];
        var tail := buffer[f.length..];
        DrainCutsFrames(tail);
        ReadFramePrefix(buffer, f.length);
        assert IsCut(raw, Delivered(f));
        PrependKeepsCut(Delivered(f), raw, Drain(tail));
      }
    }
  }

  /** The loop stops on an empty buffer, on a frame not yet complete, or
      on an error, which leaves the offending frame at the head. */
  lemma {:induction false} DrainStops(buffer: seq<byte>)
    ensures var d := Drain(buffer);
            && (d.error.None? ==> |d.rest| == 0 || (ReadFrameWs(d.rest).Ok? && ReadFrameWs(d.rest).value.length > |d.rest|))
            && (d.error.Some? ==> |d.rest| > 0 && (ReadFrameWs(d.rest).Err? <==> d.error != Some(TYPE_ERROR)))
    decreases |buffer|
  {
    if |buffer| > 0 && ReadFrameWs(buffer).Ok? {
      var f := ReadFrameWs(buffer).value;
      if |buffer| >= f.length && !(f.mask.None? && |f.data| > 0) {
        DrainStops(buffer[f.length..]);
      }
    }
  }

  lemma PrependKeepsCut(f: WsFrame, raw: seq<byte>, d: Deframed)
    requires WellCut(d)
    requires IsCut(raw, f)
    ensures WellCut(Prepend(f, raw, d))
  {
    var r := Prepend(f, raw, d);
    assert r.raws[1..] == d.raws && r.frames[1..] == d.frames;
  }

  /** The deframer's state between chunks. Once failed, a stream takes no
      more chunks. */
  datatype Deframer = Deframer(buffer: seq<byte>, failed: Option<string>)

  /** One `transform(chunk)` call: the frames it enqueues and the new state. */
  function Transform(s: Deframer, chunk: seq<byte>): (r: (seq<WsFrame>, Deframer))
    ensures s.failed.Some? ==> r == ([], s)
    ensures s.failed.None? ==> r.0 == Drain(s.buffer + chunk).frames
  {
    if s.failed.Some? then ([], s)
    else
      var d := Drain(s.buffer + chunk);
      (d.frames, Deframer(d.rest, d.error))
  }

  /** Frames already enqueued, in front of what draining the rest gives. */
  function Splice(frames: seq<WsFrame>, raws: seq<seq<byte>>, d: Deframed): Deframed {
    Deframed(frames + d.frames, raws + d.raws, d.rest, d.error)
  }

  lemma SpliceShift(frames: seq<WsFrame>, raws: seq<seq<byte>>, f: WsFrame, raw: seq<byte>, d: Deframed)
    ensures Splice(frames, raws, Prepend(f, raw, d)) == Splice(frames + [f], raws + [raw], d)
  {
    assert frames + ([f] + d.frames) == (frames + [f]) + d.frames;
    assert raws + ([raw] + d.raws) == (raws + [raw]) + d.raws;
  }

  /** The loop itself, over a buffer variable cut down as frames go out. */
  method DeframeLoop(buffer: seq<byte>, chunk: seq<byte>) returns (frames: seq<WsFrame>, rest: seq<byte>, error: Option<string>)
    ensures frames == Drain(buffer + chunk).frames
    ensures rest == Drain(buffer + chunk).rest && error == Drain(buffer + chunk).error
  {
    var buf := buffer + chunk;
    frames := [];
    ghost var raws: seq<seq<byte>> := [];
    assert Splice([], [], Drain(buf)) == Drain(buf);
    while |buf| > 0
      invariant Drain(buffer + chunk) == Splice(frames, raws, Drain(buf))
      decreases |buf|
    {
      var read := ReadFrameWs(buf);
      if read.Err? || |buf| < read.value.length || (read.value.mask.None? && |read.value.data| > 0) {
        DrainHalts(buf);
        assert frames + [] == frames;
        return frames, buf, Drain(buf).error;
      }
      var f := read.value;
      DrainUnfolds(buf);
      SpliceShift(frames, raws, Delivered(f), buf[..f.length], Drain(buf[f.length..]));
      frames := frames + [Delivered(f)];
      raws := raws + [buf[..f.length]];
      buf := buf[f.length..];
    }
    assert frames + [] == frames;
    return frames, buf, None;
  }

  lemma DrainHalts(buf: seq<byte>)
    requires |buf| > 0
    requires ReadFrameWs(buf).Err? || |buf| < ReadFrameWs(buf).value.length
             || (ReadFrameWs(buf).value.mask.None? && |ReadFrameWs(buf).value.data| > 0)
    ensures Drain(buf).frames == [] && Drain(buf).raws == [] && Drain(buf).rest == buf
    ensures Drain(buf).error == (if ReadFrameWs(buf).Err? then Some(ReadFrameWs(buf).error)
                                else if |buf| < ReadFrameWs(buf).value.length then None
                                else Some(TYPE_ERROR))
  {
  }

  lemma DrainUnfolds(buf: seq<byte>)
    requires |buf| > 0 && ReadFrameWs(buf).Ok? && ReadFrameWs(buf).value.length <= |buf|
    requires !(ReadFrameWs(buf).value.mask.None? && |ReadFrameWs(buf).value.data| > 0)
    ensures var f := ReadFrameWs(buf).value;
            Drain(buf) == Prepend(Delivered(f), buf[..f.length], Drain(buf[f.length..]))
  {
  }

  // ---------------------------------------------------------------------
  // Properties of the loop as written

  /** An encoded frame at the head of the buffer comes out whole: its FIN,
      opcode and key as sent, and its payload unmasked. */
  lemma {:induction false} EncodedFrameComesOut(fin: bool, opcode: nat, key: seq<byte>, payload: seq<byte>,
                                                tail: seq<byte>)
    requires opcode < 16 && |key| == 4 && |payload| <= WS_MAX_SIZE
    ensures var frame := EncodeFrame(fin, opcode, Some(key), payload);
            Drain(frame + tail)
            == Prepend(WsFrame(fin, opcode, |frame|, Some(key), payload), frame, Drain(tail))
  {
    var frame := EncodeFrame(fin, opcode, Some(key), payload);
    var buf := frame + tail;
    EncodedFrameReads(fin, opcode, key, payload, tail);
    assert buf[..|frame|] == frame;
    assert buf[|frame|..] == tail;
  }

  /** What the frame decoder reads at the head of a buffer holding an
      encoded masked frame, and what is enqueued for it. */
  lemma EncodedFrameReads(fin: bool, opcode: nat, key: seq<byte>, payload: seq<byte>, tail: seq<byte>)
    requires opcode < 16 && |key| == 4 && |payload| <= WS_MAX_SIZE
    ensures var frame := EncodeFrame(fin, opcode, Some(key), payload);
            && ReadFrameWs(frame + tail).Ok?
            && ReadFrameWs(frame + tail).value.length == |frame|
            && ReadFrameWs(frame + tail).value.mask == Some(key)
            && Delivered(ReadFrameWs(frame + tail).value) == WsFrame(fin, opcode, |frame|, Some(key), payload)
            && HeaderComplete(frame + tail)
  {
    assert WS_MAX_SIZE < Pow256(8) by {
      assert Pow256(8) == 0x1_0000_0000_0000_0000;
    }
    var frame := EncodeFrame(fin, opcode, Some(key), payload);
    var buf := frame + tail;
    DecodeEncodedFrame(fin, opcode, Some(key), payload, tail, WS_MAX_SIZE);
    var h := EncodedHeader(fin, opcode, true, |payload|);
    var f := ReadFrameWs(buf).value;
    assert f == WsFrame(fin, opcode, |frame|, Some(key), DataOf(buf, h));
    UnmaskInvolution(DataOf(buf, h), key);
    assert Delivered(f).data == payload;
  }

  /** A masked frame as a client sends it. */
  datatype Sent = Sent(fin: bool, opcode: nat, key: seq<byte>, payload: seq<byte>)

  predicate Sendable(m: Sent) {
    m.opcode < 16 && |m.key| == 4 && |m.payload| <= WS_MAX_SIZE
  }

  function EncodeSent(m: Sent): seq<byte>
    requires Sendable(m)
  {
    assert Pow256(8) == 0x1_0000_0000_0000_0000;
    EncodeFrame(m.fin, m.opcode, Some(m.key), m.payload)
  }

  function EncodeAll(ms: seq<Sent>): seq<byte>
    requires forall i :: 0 <= i < |ms| ==> Sendable(ms[i])
  {
    if |ms| == 0 then [] else EncodeSent(ms[0]) + EncodeAll(ms[1..])
  }

  /** The frame delivered for a sent one carries what was sent. */
  predicate Matches(f: WsFrame, m: Sent) {
    f.fin == m.fin && f.opcode == m.opcode && f.mask == Some(m.key) && f.data == m.payload
  }

  /** Frame by frame, the delivered frames carry what was sent. */
  predicate AllMatch(fs: seq<WsFrame>, ms: seq<Sent>) {
    && |fs| == |ms|
    && (|fs| == 0 || (Matches(fs[0], ms[0]) && AllMatch(fs[1..], ms[1..])))
  }

  /** Any run of masked frames received in one piece is delivered in full
      and in order, with nothing left over and no error. */
  lemma {:induction false} DrainEncodedFrames(ms: seq<Sent>)
    requires forall i :: 0 <= i < |ms| ==> Sendable(ms[i])
    ensures var d := Drain(EncodeAll(ms));
            d.rest == [] && d.error.None? && AllMatch(d.frames, ms)
  {
    if |ms| > 0 {
      var m := ms[0];
      DrainEncodedFrames(ms[1..]);
      EncodedFrameComesOut(m.fin, m.opcode, m.key, m.payload, EncodeAll(ms[1..]));
      var frame := EncodeSent(m);
      assert EncodeAll(ms) == frame + EncodeAll(ms[1..]);
      var d := Drain(EncodeAll(ms));
      var e := Drain(EncodeAll(ms[1..]));
      var x := WsFrame(m.fin, m.opcode, |frame|, Some(m.key), m.payload);
      assert d.frames == [x] + e.frames;
      assert d.frames[1..] == e.frames;
    }
  }

  /** An unmasked frame with a payload fails the stream: `frame.mask` is
      `null`. */
  lemma UnmaskedFrameFails(fin: bool, opcode: nat, payload: seq<byte>, tail: seq<byte>)
    requires opcode < 16 && 0 < |payload| <= WS_MAX_SIZE
    ensures Drain(EncodeFrame(fin, opcode, None, payload) + tail).frames == []
    ensures Drain(EncodeFrame(fin, opcode, None, payload) + tail).error == Some(TYPE_ERROR)
  {
    assert Pow256(8) == 0x1_0000_0000_0000_0000;
    var frame := EncodeFrame(fin, opcode, None, payload);
    DecodeEncodedFrame(fin, opcode, None, payload, tail, WS_MAX_SIZE);
    var h := EncodedHeader(fin, opcode, false, |payload|);
    assert |DataOf(frame + tail, h)| == |payload|;
  }

  /** A header with a 7-bit length is decoded from its first two octets. */
  lemma ShortHeaderPrefix(buf: seq<byte>, k: nat)
    requires 2 <= k <= |buf| && At(buf, 1) % 128 <= 125
    ensures DecodeHeader(buf[..k], WS_MAX_SIZE) == DecodeHeader(buf, WS_MAX_SIZE)
  {
    assert At(buf[..k], 0) == At(buf, 0) && At(buf[..k], 1) == At(buf, 1);
  }

  /** A frame that has not fully arrived stays buffered: the loop waits. */
  lemma IncompleteFrameWaits(fin: bool, opcode: nat, key: seq<byte>, payload: seq<byte>, cut: nat)
    requires opcode < 16 && |key| == 4 && |payload| <= 125
    requires 2 <= cut < |EncodeFrame(fin, opcode, Some(key), payload)|
    ensures Drain(EncodeFrame(fin, opcode, Some(key), payload)[..cut])
         == Deframed([], [], EncodeFrame(fin, opcode, Some(key), payload)[..cut], None)
  {
    var frame := EncodeFrame(fin, opcode, Some(key), payload);
    assert frame + [] == frame;
    EncodedHeaderDecodes(fin, opcode, Some(key), payload, [], WS_MAX_SIZE);
    ShortHeaderPrefix(frame, cut);
  }

  /** A chunk boundary inside a 16-bit extended length fails the stream:
      `getUint16` throws before the length is known, and the `catch` fails
      the stream instead of waiting for the rest. The same octets in one
      chunk are a well-formed frame. */
  lemma SplitLengthFails(fin: bool, opcode: nat, key: seq<byte>, payload: seq<byte>)
    requires opcode < 16 && |key| == 4 && 126 <= |payload| < 0x1_0000
    ensures var frame := EncodeFrame(fin, opcode, Some(key), payload);
            && Transform(Deframer([], None), frame[..3]) == ([], Deframer(frame[..3], Some(RANGE_ERROR)))
            && Transform(Deframer([], None), frame).0 == [WsFrame(fin, opcode, |frame|, Some(key), payload)]
  {
    var frame := EncodeFrame(fin, opcode, Some(key), payload);
    assert frame == frame + [];
    EncodedFrameComesOut(fin, opcode, key, payload, []);
    assert [] + frame == frame;
    DecodeEncodedFrame(fin, opcode, Some(key), payload, [], WS_MAX_SIZE);
    assert At(frame, 1) % 128 == 126;
    ThreeOctetsFail(frame);
  }

  /** The first three octets of a frame with a 16-bit extended length, as
      the whole first chunk, fail the stream. */
  lemma ThreeOctetsFail(frame: seq<byte>)
    requires |frame| >= 3 && At(frame, 1) % 128 == 126
    ensures Transform(Deframer([], None), frame[..3]) == ([], Deframer(frame[..3], Some(RANGE_ERROR)))
  {
    var part := frame[..3];
    assert [] + part == part;
    assert At(part, 1) == At(frame, 1);
    assert DecodeHeader(part, WS_MAX_SIZE) == Err(RANGE_ERROR);
  }

  // ---------------------------------------------------------------------
  // The loop as evidently intended

  /** The header can be decoded: both fixed octets and the whole extended
      length field are present. */
  predicate HeaderComplete(buf: seq<byte>) {
    && |buf| >= 2
    && (buf[1] % 128 == 126 ==> |buf| >= 4)
    && (buf[1] % 128 == 127 ==> |buf| >= 10)
  }

  /** The loop with "not enough data" covering a partial header too: it
      waits until the header is complete instead of failing the stream. */
  function DrainWaiting(buffer: seq<byte>): (r: Deframed)
    ensures |r.frames| == |r.raws|
    decreases |buffer|
  {
    if |buffer| == 0 then Deframed([], [], [], None)
    else if !HeaderComplete(buffer) then Deframed([], [], buffer, None)
    else
      match ReadFrameWs(buffer)
      case Err(e) => Deframed([], [], buffer, Some(e))
      case Ok(f) =>
        if |buffer| < f.length then Deframed([], [], buffer, None)
        else if f.mask.None? && |f.data| > 0 then Deframed([], [], buffer, Some(TYPE_ERROR))
        else Prepend(Delivered(f), buffer[..f.length], DrainWaiting(buffer[f.length..]))
  }

  lemma WaitingUnfolds(buf: seq<byte>)
    requires HeaderComplete(buf) && ReadFrameWs(buf).Ok? && ReadFrameWs(buf).value.length <= |buf|
    requires !(ReadFrameWs(buf).value.mask.None? && |ReadFrameWs(buf).value.data| > 0)
    ensures var f := ReadFrameWs(buf).value;
            DrainWaiting(buf) == Prepend(Delivered(f), buf[..f.length], DrainWaiting(buf[f.length..]))
  {
  }

  lemma PrependSplice(f: WsFrame, raw: seq<byte>, frames: seq<WsFrame>, raws: seq<seq<byte>>, d: Deframed)
    ensures Prepend(f, raw, Splice(frames, raws, d)) == Splice([f] + frames, [raw] + raws, d)
  {
    assert [f] + (frames + d.frames) == ([f] + frames) + d.frames;
    assert [raw] + (raws + d.raws) == ([raw] + raws) + d.raws;
  }

  /** How the input is split into chunks does not matter: unless the first
      part already failed the stream, draining it and then draining what
      stayed buffered together with the next part gives the same frames,
      buffer and error as draining both parts at once. */
  lemma {:induction false} DrainWaitingSplits(a: seq<byte>, c: seq<byte>)
    requires DrainWaiting(a).error.None?
    ensures DrainWaiting(a + c)
         == Splice(DrainWaiting(a).frames, DrainWaiting(a).raws, DrainWaiting(DrainWaiting(a).rest + c))
    decreases |a|
  {
    if |a| == 0 || !HeaderComplete(a) || ReadFrameWs(a).Err? || |a| < ReadFrameWs(a).value.length {
      SplitsStop(a, c);
    } else {
      var n := ReadFrameWs(a).value.length;
      DrainWaitingSplits(a[n..], c);
      SplitsAdvance(a, c);
    }
  }

  /** The split property where draining `a` stops at once. */
  lemma SplitsStop(a: seq<byte>, c: seq<byte>)
    requires DrainWaiting(a).error.None?
    requires |a| == 0 || !HeaderComplete(a) || ReadFrameWs(a).Err? || |a| < ReadFrameWs(a).value.length
    ensures DrainWaiting(a + c)
         == Splice(DrainWaiting(a).frames, DrainWaiting(a).raws, DrainWaiting(DrainWaiting(a).rest + c))
  {
    var d := DrainWaiting(a);
    assert d.rest == a && d.frames == [] && d.raws == [];
    assert Splice([], [], DrainWaiting(a + c)) == DrainWaiting(a + c);
  }

  /** The split property where draining `a` cuts off its first frame,
      given the property for the rest of `a`. */
  lemma SplitsAdvance(a: seq<byte>, c: seq<byte>)
    requires DrainWaiting(a).error.None?
    requires HeaderComplete(a) && ReadFrameWs(a).Ok? && ReadFrameWs(a).value.length <= |a|
    requires var n := ReadFrameWs(a).value.length;
             var t := DrainWaiting(a[n..]);
             DrainWaiting(a[n..] + c) == Splice(t.frames, t.raws, DrainWaiting(t.rest + c))
    ensures DrainWaiting(a + c)
         == Splice(DrainWaiting(a).frames, DrainWaiting(a).raws, DrainWaiting(DrainWaiting(a).rest + c))
  {
    var f := ReadFrameWs(a).value;
    var n := f.length;
    assert !(f.mask.None? && |f.data| > 0);
    WaitingUnfolds(a);
    var tail := DrainWaiting(a[n..]);
    SplitsStep(a, c, f);
    PrependSplice(Delivered(f), a[..n], tail.frames, tail.raws, DrainWaiting(tail.rest + c));
  }

  /** The first step on `a + c` is the first step on `a`. */
  lemma SplitsStep(a: seq<byte>, c: seq<byte>, f: WsFrame)
    requires HeaderComplete(a) && ReadFrameWs(a) == Ok(f) && f.length <= |a|
    requires !(f.mask.None? && |f.data| > 0)
    ensures DrainWaiting(a + c) == Prepend(Delivered(f), a[..f.length], DrainWaiting(a[f.length..] + c))
  {
    var n := f.length;
    ReadFrameExtends(a, c);
    HeaderCompleteExtends(a, c);
    WaitingUnfolds(a + c);
    ConcatSlices(a, c, n);
  }

  lemma HeaderCompleteExtends(a: seq<byte>, c: seq<byte>)
    requires HeaderComplete(a)
    ensures HeaderComplete(a + c)
  {
    assert (a + c)[1] == a[1];
  }

  lemma ConcatSlices(a: seq<byte>, c: seq<byte>, n: nat)
    requires n <= |a|
    ensures (a + c)[..n] == a[..n] && (a + c)[n..] == a[n..] + c
  {
  }

  lemma ConcatAssoc(x: seq<byte>, y: seq<byte>, z: seq<byte>)
    ensures x + y + z == x + (y + z)
  {
  }

  /** One `transform(chunk)` of the corrected loop. */
  function TransformWaiting(s: Deframer, chunk: seq<byte>): (r: (seq<WsFrame>, Deframer))
    ensures s.failed.Some? ==> r == ([], s)
    ensures s.failed.None? ==> r.0 == DrainWaiting(s.buffer + chunk).frames
  {
    if s.failed.Some? then ([], s)
    else
      var d := DrainWaiting(s.buffer + chunk);
      (d.frames, Deframer(d.rest, d.error))
  }

  /** Two chunks deliver what their concatenation delivers in one. */
  lemma ChunkingIrrelevant(s: Deframer, a: seq<byte>, c: seq<byte>)
    requires s.failed.None? && TransformWaiting(s, a).1.failed.None?
    ensures TransformWaiting(s, a).0 + TransformWaiting(TransformWaiting(s, a).1, c).0
         == TransformWaiting(s, a + c).0
    ensures TransformWaiting(TransformWaiting(s, a).1, c).1 == TransformWaiting(s, a + c).1
  {
    var d := DrainWaiting(s.buffer + a);
    assert TransformWaiting(s, a) == (d.frames, Deframer(d.rest, d.error));
    DrainWaitingSplits(s.buffer + a, c);
    ConcatAssoc(s.buffer, a, c);
    var e := DrainWaiting(d.rest + c);
    assert TransformWaiting(Deframer(d.rest, None), c) == (e.frames, Deframer(e.rest, e.error));
    assert DrainWaiting(s.buffer + (a + c)) == Splice(d.frames, d.raws, e);
  }

  /** The split that fails the stream as written is harmless here. */
  lemma SplitLengthWaits(fin: bool, opcode: nat, key: seq<byte>, payload: seq<byte>)
    requires opcode < 16 && |key| == 4 && 126 <= |payload| < 0x1_0000
    ensures var frame := EncodeFrame(fin, opcode, Some(key), payload);
            var first := TransformWaiting(Deframer([], None), frame[..3]);
            && first == ([], Deframer(frame[..3], None))
            && TransformWaiting(first.1, frame[3..]).0 == [WsFrame(fin, opcode, |frame|, Some(key), payload)]
  {
    var frame := EncodeFrame(fin, opcode, Some(key), payload);
    DecodeEncodedFrame(fin, opcode, Some(key), payload, [], WS_MAX_SIZE);
    assert frame + [] == frame;
    var part := frame[..3];
    assert [] + part == part;
    assert part[1] == frame[1];
    assert !HeaderComplete(part);
    assert part + frame[3..] == frame;
    EncodedFrameReads(fin, opcode, key, payload, []);
    WaitingUnfolds(frame);
    assert frame[|frame|..] == [];
  }
}
