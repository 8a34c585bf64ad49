/** The STUN Binding client of stun/stun.ts (RFC 5389): the request it
    sends, the walk over the attributes of the answer, and the checks and
    XOR-MAPPED-ADDRESS decoding that turn the answer into a public address.

    The receive buffer is a parameter: `buffer` is the `ArrayBuffer` behind
    the received datagram, whose first `size` octets are the datagram. A
    `DataView` built on `data.buffer` sees all of `buffer`; `data` and its
    sub-arrays see `buffer[..size]`.
 */
module Stun {
  import opened Wrappers
  import opened Bytes
  import opened Text

  const BINDING_REQUEST: nat := 0x0001
  const BINDING_SUCCESS: nat := 0x0101
  const XOR_MAPPED_ADDRESS: nat := 0x0020
  const FAMILY_IPV4: byte := 0x01
  const FAMILY_IPV6: byte := 0x02
  const MAGIC_COOKIE: nat := 0x2112_A442
  /** `magic`: the cookie's four octets. */
  const MAGIC: seq<byte> := [0x21, 0x12, 0xA4, 0x42]
  const HEADER_SIZE: nat := 20
  const INVALID_RESPONSE := "Invalid STUN response"
  const INVALID_TXID := "Invalid transaction ID in STUN response"

  function Zeros(n: nat): (z: seq<byte>)
    ensures |z| == n
  {
    seq(n, _ => 0)
  }

  /** `magic` is the cookie written big-endian. */
  lemma MagicIsCookie()
    ensures MAGIC_COOKIE < Pow256(4)
    ensures BeBytes(MAGIC_COOKIE, 4) == MAGIC
    ensures BeValue(MAGIC) == MAGIC_COOKIE
  {
    assert Pow256(4) == 0x1_0000_0000;
    assert MAGIC[..3] == [0x21, 0x12, 0xA4] && MAGIC[..3][..2] == [0x21, 0x12];
    assert [0x21, 0x12][..1] == [0x21];
    assert BeValue(MAGIC) == MAGIC_COOKIE;
    BeBytesOfBeValue(MAGIC);
  }

  // ---------------------------------------------------------------------
  // The request

  /** A message header (RFC 5389 section 6). */
  datatype Header = Header(kind: nat, length: nat, cookie: nat, txid: seq<byte>)

  /** The 20-octet header at the start of a message. */
  function ParseHeader(m: seq<byte>): (r: Option<Header>)
    ensures r.Some? <==> |m| >= HEADER_SIZE
    ensures r.Some? ==> |r.value.txid| == 12 && r.value.txid == m[8..20]
  {
    if |m| < HEADER_SIZE then None
    else Some(Header(U16(m[0], m[1]), U16(m[2], m[3]), BeValue(m[4..8]), m[8..20]))
  }

  /** `#createMessage('BindingRequest')`, the transaction id given: the
      header, then twelve octets that are left zero. The length field is
      the message size less the header; `setUint32` writes the cookie as
      `MAGIC` (`MagicIsCookie`). */
  function CreateMessage(txid: seq<byte>): (m: seq<byte>)
    requires |txid| == 12
    ensures |m| == 32
    ensures m[HEADER_SIZE..] == Zeros(12)
  {
    var body := Zeros(12);
    Be16(BINDING_REQUEST) + Be16(|body|) + MAGIC + txid + body
  }

  /** The request carries the Binding request type, a length field equal to
      its size less the header, the magic cookie and the transaction id. */
  lemma CreateMessageHeader(txid: seq<byte>)
    requires |txid| == 12
    ensures var m := CreateMessage(txid);
            && ParseHeader(m) == Some(Header(BINDING_REQUEST, |m| - HEADER_SIZE, MAGIC_COOKIE, txid))
            && m[4..8] == MAGIC
  {
    MagicIsCookie();
    HeaderOf(Be16(BINDING_REQUEST), Be16(12), MAGIC, txid, Zeros(12));
  }

  /** The fields of a header laid out from its parts. */
  lemma HeaderOf(kind: seq<byte>, length: seq<byte>, cookie: seq<byte>, txid: seq<byte>, rest: seq<byte>)
    requires |kind| == 2 && |length| == 2 && |cookie| == 4 && |txid| == 12
    ensures var m := kind + length + cookie + txid + rest;
            && ParseHeader(m) == Some(Header(U16(kind[0], kind[1]), U16(length[0], length[1]), BeValue(cookie), txid))
            && m[4..8] == cookie && m[1] == kind[1]
  {
    var m := kind + length + cookie + txid + rest;
    assert m[0] == kind[0] && m[1] == kind[1] && m[2] == length[0] && m[3] == length[1];
    assert m[4..8] == cookie;
    assert m[8..20] == txid;
  }

  // ---------------------------------------------------------------------
  // XOR

  /** `xor(a, b)`: `a.map((v, i) => v ^ b[i])`; a missing `b[i]` is
      `undefined` and leaves `v` as it is. */
  function XorSeq(a: seq<byte>, b: seq<byte>): (r: seq<byte>)
    ensures |r| == |a|
  {
    seq(|a|, i requires 0 <= i < |a| => Xor(a[i], At(b, i)))
  }

  /** XOR with the same key undoes itself. */
  lemma XorSeqTwice(a: seq<byte>, b: seq<byte>)
    ensures XorSeq(XorSeq(a, b), b) == a
  {
    forall i | 0 <= i < |a|
      ensures XorSeq(XorSeq(a, b), b)[i] == a[i]
    {
      XorTwice(a[i], At(b, i));
    }
  }

  /** Past the end of the key the octets are unchanged. */
  lemma XorSeqShortKey(a: seq<byte>, b: seq<byte>, i: nat)
    requires |b| <= i < |a|
    ensures XorSeq(a, b)[i] == a[i]
  {
    XorZero(a[i]);
  }

  // ---------------------------------------------------------------------
  // The attribute walk

  /** One attribute as `#parseAttr` yields it: the type and length fields
      and the value, cut from the datagram and clamped to its end. */
  datatype Attr = Attr(kind: nat, length: nat, value: seq<byte>)

  /** Octets from the start of a value to the next attribute: the length
      as written when `padded` is false, as `#parseAttr` does; rounded up
      to a multiple of four when it is true, as RFC 5389 section 15 lays
      attributes out. */
  function Advance(length: nat, padded: bool): (n: nat)
    ensures length <= n < length + 4
    ensures padded ==> n % 4 == 0
    ensures !padded ==> n == length
  {
    if padded then (length + 3) / 4 * 4 else length
  }

  /** The attribute at absolute position `pos`: type and length are read
      through a `DataView` on the whole buffer, the value is a sub-array of
      the datagram. */
  function AttrAt(buffer: seq<byte>, size: nat, pos: nat): (a: Attr)
    requires size <= |buffer| && pos + 4 <= |buffer|
    ensures a.kind < 0x1_0000 && a.length < 0x1_0000
  {
    var length := U16(buffer[pos + 2], buffer[pos + 3]);
    Attr(U16(buffer[pos], buffer[pos + 1]), length, Sub(buffer[..size], pos + 4, pos + 4 + length))
  }

  /** Every attribute the walk yields from absolute position `pos` to the
      end of the datagram, or the error it throws: a `DataView` with fewer
      than four octets of buffer left throws `RangeError` on the length. */
  function Attrs(buffer: seq<byte>, size: nat, pos: nat, padded: bool): (r: Result<seq<Attr>>)
    requires size <= |buffer|
    ensures r.Err? ==> r.error == RANGE_ERROR
    decreases size - pos
  {
    if pos >= size then Ok([])
    else if pos + 4 > |buffer| then Err(RANGE_ERROR)
    else
      var a := AttrAt(buffer, size, pos);
      match Attrs(buffer, size, pos + 4 + Advance(a.length, padded), padded)
      case Err(e) => Err(e)
      case Ok(rest) => Ok([a] + rest)
  }

  /** The first XOR-MAPPED-ADDRESS value from `pos` on, found as the
      `for...of` loop finds it: the generator is lazy, so the walk stops at
      the match and nothing after it is read. */
  function FindMapped(buffer: seq<byte>, size: nat, pos: nat, padded: bool): Result<Option<seq<byte>>>
    requires size <= |buffer|
    decreases size - pos
  {
    if pos >= size then Ok(None)
    else if pos + 4 > |buffer| then Err(RANGE_ERROR)
    else
      var a := AttrAt(buffer, size, pos);
      if a.kind == XOR_MAPPED_ADDRESS then Ok(Some(a.value))
      else FindMapped(buffer, size, pos + 4 + Advance(a.length, padded), padded)
  }

  /** Each attribute takes at least four octets and starts inside the
      datagram, so the walk yields at most one attribute per four octets
      left, rounded up. */
  lemma {:induction false} AttrsBound(buffer: seq<byte>, size: nat, pos: nat, padded: bool)
    requires size <= |buffer|
    requires Attrs(buffer, size, pos, padded).Ok?
    ensures var n := |Attrs(buffer, size, pos, padded).value|;
            n == 0 || 4 * (n - 1) < size - pos
    decreases size - pos
  {
    if pos < size {
      AttrsStep(buffer, size, pos, padded);
      var next := pos + 4 + Advance(AttrAt(buffer, size, pos).length, padded);
      AttrsBound(buffer, size, next, padded);
      var n := |Attrs(buffer, size, next, padded).value|;
      assert |Attrs(buffer, size, pos, padded).value| == n + 1;
    }
  }

  /** The value is the `length` octets after the header when the datagram
      holds them all, and is cut at the datagram's end otherwise. */
  lemma AttrValue(buffer: seq<byte>, size: nat, pos: nat)
    requires size <= |buffer| && pos + 4 <= |buffer|
    ensures var a := AttrAt(buffer, size, pos);
            && |a.value| <= a.length
            && (pos + 4 + a.length <= size ==> a.value == buffer[pos + 4..pos + 4 + a.length])
            && (pos + 4 <= size <= pos + 4 + a.length ==> a.value == buffer[pos + 4..size])
            && (size < pos + 4 ==> a.value == [])
  {
  }

  /** The search steps over an attribute of another type. */
  lemma FindMappedSkips(buffer: seq<byte>, size: nat, pos: nat, padded: bool)
    requires size <= |buffer| && pos < size && pos + 4 <= |buffer|
    requires AttrAt(buffer, size, pos).kind != XOR_MAPPED_ADDRESS
    ensures FindMapped(buffer, size, pos, padded)
         == FindMapped(buffer, size, pos + 4 + Advance(AttrAt(buffer, size, pos).length, padded), padded)
  {
  }

  /** The value of the first XOR-MAPPED-ADDRESS in a list of attributes. */
  function FirstMapped(attrs: seq<Attr>): (r: Option<seq<byte>>)
    ensures r.None? <==> forall i :: 0 <= i < |attrs| ==> attrs[i].kind != XOR_MAPPED_ADDRESS
    ensures r.Some? ==> exists i :: 0 <= i < |attrs| && attrs[i].kind == XOR_MAPPED_ADDRESS
                                    && attrs[i].value == r.value
                                    && forall j :: 0 <= j < i ==> attrs[j].kind != XOR_MAPPED_ADDRESS
  {
    if |attrs| == 0 then None
    else if attrs[0].kind == XOR_MAPPED_ADDRESS then Some(attrs[0].value)
    else
      var r := FirstMapped(attrs[1..]);
      assert forall i :: 1 <= i < |attrs| ==> attrs[i] == attrs[1..][i - 1];
      r
  }

  /** Where the whole walk succeeds, the lazy search finds the first match
      of the list the walk yields. */
  lemma {:induction false} FindMappedAgrees(buffer: seq<byte>, size: nat, pos: nat, padded: bool)
    requires size <= |buffer|
    requires Attrs(buffer, size, pos, padded).Ok?
    ensures FindMapped(buffer, size, pos, padded) == Ok(FirstMapped(Attrs(buffer, size, pos, padded).value))
    decreases size - pos
  {
    if pos < size {
      AttrsStep(buffer, size, pos, padded);
      var a := AttrAt(buffer, size, pos);
      var next := pos + 4 + Advance(a.length, padded);
      FindMappedAgrees(buffer, size, next, padded);
      FindMappedStep(buffer, size, pos, padded);
      FirstMappedCons(a, Attrs(buffer, size, next, padded).value);
    }
  }

  /** One step of a walk that succeeds. */
  lemma AttrsStep(buffer: seq<byte>, size: nat, pos: nat, padded: bool)
    requires size <= |buffer| && pos < size
    requires Attrs(buffer, size, pos, padded).Ok?
    ensures pos + 4 <= |buffer|
    ensures var next := pos + 4 + Advance(AttrAt(buffer, size, pos).length, padded);
            && Attrs(buffer, size, next, padded).Ok?
            && Attrs(buffer, size, pos, padded).value == [AttrAt(buffer, size, pos)] + Attrs(buffer, size, next, padded).value
  {
  }

  /** One step of the search. */
  lemma FindMappedStep(buffer: seq<byte>, size: nat, pos: nat, padded: bool)
    requires size <= |buffer| && pos < size && pos + 4 <= |buffer|
    ensures var a := AttrAt(buffer, size, pos);
            FindMapped(buffer, size, pos, padded)
            == if a.kind == XOR_MAPPED_ADDRESS then Ok(Some(a.value))
               else FindMapped(buffer, size, pos + 4 + Advance(a.length, padded), padded)
  {
  }

  lemma FirstMappedCons(a: Attr, rest: seq<Attr>)
    ensures FirstMapped([a] + rest)
         == if a.kind == XOR_MAPPED_ADDRESS then Some(a.value) else FirstMapped(rest)
  {
    assert ([a] + rest)[1..] == rest;
  }

  /** The search fails only with the error the walk meets first, before
      any match. */
  lemma {:induction false} FindMappedFails(buffer: seq<byte>, size: nat, pos: nat, padded: bool)
    requires size <= |buffer|
    requires FindMapped(buffer, size, pos, padded).Err?
    ensures Attrs(buffer, size, pos, padded) == Err(FindMapped(buffer, size, pos, padded).error)
    decreases size - pos
  {
    if pos < size && pos + 4 <= |buffer| {
      var a := AttrAt(buffer, size, pos);
      var next := pos + 4 + Advance(a.length, padded);
      FindMappedStep(buffer, size, pos, padded);
      assert a.kind != XOR_MAPPED_ADDRESS;
      FindMappedFails(buffer, size, next, padded);
      AttrsFailStep(buffer, size, pos, padded);
    } else {
      assert pos < size;
      assert Attrs(buffer, size, pos, padded) == Err(RANGE_ERROR);
      assert FindMapped(buffer, size, pos, padded) == Err(RANGE_ERROR);
    }
  }

  /** A walk fails where the rest of it fails. */
  lemma AttrsFailStep(buffer: seq<byte>, size: nat, pos: nat, padded: bool)
    requires size <= |buffer| && pos < size && pos + 4 <= |buffer|
    requires Attrs(buffer, size, pos + 4 + Advance(AttrAt(buffer, size, pos).length, padded), padded).Err?
    ensures Attrs(buffer, size, pos, padded)
         == Attrs(buffer, size, pos + 4 + Advance(AttrAt(buffer, size, pos).length, padded), padded)
  {
  }

  /** The search does not read past its match: an attribute cut short after
      the match does not stop it, although the whole walk throws. */
  lemma LazyAfterMatch()
    ensures var b: seq<byte> := [0x00, 0x20, 0x00, 0x00, 0xFF];
            && FindMapped(b, 5, 0, false) == Ok(Some([]))
            && Attrs(b, 5, 0, false) == Err(RANGE_ERROR)
  {
    var b: seq<byte> := [0x00, 0x20, 0x00, 0x00, 0xFF];
    assert AttrAt(b, 5, 0) == Attr(XOR_MAPPED_ADDRESS, 0, []);
  }

  // ---------------------------------------------------------------------
  // Encoding attributes

  /** An attribute whose length field is its value's length, both within
      sixteen bits. */
  predicate WellFormed(a: Attr) {
    a.kind < 0x1_0000 && a.length == |a.value| && a.length < 0x1_0000
  }

  predicate AllWellFormed(attrs: seq<Attr>) {
    forall i :: 0 <= i < |attrs| ==> WellFormed(attrs[i])
  }

  /** Type, length, value, and when `padded` the zero octets that bring
      the value to a multiple of four. */
  function EncodeAttr(a: Attr, padded: bool): (e: seq<byte>)
    requires WellFormed(a)
    ensures |e| == 4 + Advance(a.length, padded)
  {
    Be16(a.kind) + Be16(a.length) + a.value + Zeros(Advance(a.length, padded) - a.length)
  }

  function EncodeAttrs(attrs: seq<Attr>, padded: bool): seq<byte>
    requires AllWellFormed(attrs)
  {
    if |attrs| == 0 then [] else EncodeAttr(attrs[0], padded) + EncodeAttrs(attrs[1..], padded)
  }

  /** An encoded attribute reads back where it was put. */
  lemma AttrReads(buffer: seq<byte>, size: nat, pos: nat, a: Attr, padded: bool)
    requires WellFormed(a)
    requires pos + 4 + a.length <= size <= |buffer|
    requires pos + |EncodeAttr(a, padded)| <= |buffer|
    requires buffer[pos..pos + |EncodeAttr(a, padded)|] == EncodeAttr(a, padded)
    ensures AttrAt(buffer, size, pos) == a
  {
    var ea := EncodeAttr(a, padded);
    var n := |ea|;
    EncodeAttrFields(a, padded);
    SliceOfSlice(buffer, pos, pos + n, 4, 4 + a.length);
    assert buffer[pos] == ea[0] && buffer[pos + 1] == ea[1] by {
      assert buffer[pos..pos + n][0] == buffer[pos] && buffer[pos..pos + n][1] == buffer[pos + 1];
    }
    assert buffer[pos + 2] == ea[2] && buffer[pos + 3] == ea[3] by {
      assert buffer[pos..pos + n][2] == buffer[pos + 2] && buffer[pos..pos + n][3] == buffer[pos + 3];
    }
    AttrAtFields(buffer, size, pos, a);
  }

  /** The attribute read at `pos` is `a` when the octets there hold its
      fields and its whole value. */
  lemma AttrAtFields(buffer: seq<byte>, size: nat, pos: nat, a: Attr)
    requires pos + 4 + a.length <= size <= |buffer|
    requires U16(buffer[pos], buffer[pos + 1]) == a.kind && U16(buffer[pos + 2], buffer[pos + 3]) == a.length
    requires buffer[pos + 4..pos + 4 + a.length] == a.value
    ensures AttrAt(buffer, size, pos) == a
  {
    AttrValue(buffer, size, pos);
  }

  /** The header fields and the value inside an encoded attribute. */
  lemma EncodeAttrFields(a: Attr, padded: bool)
    requires WellFormed(a)
    ensures var ea := EncodeAttr(a, padded);
            && U16(ea[0], ea[1]) == a.kind && U16(ea[2], ea[3]) == a.length
            && ea[4..4 + a.length] == a.value
  {
    var kb := Be16(a.kind);
    var lb := Be16(a.length);
    var ea := EncodeAttr(a, padded);
    assert ea == kb + lb + a.value + Zeros(Advance(a.length, padded) - a.length);
    assert ea[0] == kb[0] && ea[1] == kb[1] && ea[2] == lb[0] && ea[3] == lb[1];
  }

  lemma SliceOfSlice(s: seq<byte>, lo: nat, hi: nat, i: nat, j: nat)
    requires lo <= hi <= |s| && i <= j <= hi - lo
    ensures s[lo..hi][i..j] == s[lo + i..lo + j]
  {
    forall k | 0 <= k < j - i
      ensures s[lo..hi][i..j][k] == s[lo + i..lo + j][k]
    {
    }
  }

  /** The walk from `pos` yields the attributes encoded from `pos` to the
      end of the datagram, in order, whatever lies past the datagram. */
  lemma {:induction false} AttrsReadBack(buffer: seq<byte>, size: nat, pos: nat, attrs: seq<Attr>, padded: bool)
    requires AllWellFormed(attrs)
    requires pos <= size <= |buffer| && buffer[pos..size] == EncodeAttrs(attrs, padded)
    ensures Attrs(buffer, size, pos, padded) == Ok(attrs)
    decreases |attrs|
  {
    if |attrs| > 0 {
      var a := attrs[0];
      var ea := EncodeAttr(a, padded);
      var er := EncodeAttrs(attrs[1..], padded);
      var next := pos + |ea|;
      assert EncodeAttrs(attrs, padded) == ea + er;
      SplitSlice(buffer, pos, next, size, ea, er);
      AttrsReadBack(buffer, size, next, attrs[1..], padded);
      AttrsEncodedCons(buffer, size, pos, a, padded, next, attrs[1..]);
      assert attrs == [a] + attrs[1..];
    }
  }

  /** An encoded attribute followed by what the walk reads after it. */
  lemma AttrsEncodedCons(buffer: seq<byte>, size: nat, pos: nat, a: Attr, padded: bool, next: nat, rest: seq<Attr>)
    requires WellFormed(a) && next == pos + 4 + Advance(a.length, padded)
    requires next <= size <= |buffer|
    requires buffer[pos..next] == EncodeAttr(a, padded)
    requires Attrs(buffer, size, next, padded) == Ok(rest)
    ensures Attrs(buffer, size, pos, padded) == Ok([a] + rest)
  {
    AttrReads(buffer, size, pos, a, padded);
    AttrsCons(buffer, size, pos, padded, a, rest);
  }

  lemma SplitSlice(s: seq<byte>, lo: nat, mid: nat, hi: nat, x: seq<byte>, y: seq<byte>)
    requires lo <= hi <= |s| && s[lo..hi] == x + y && mid == lo + |x|
    ensures s[lo..mid] == x && s[mid..hi] == y
  {
    assert s[lo..mid] == s[lo..hi][..|x|];
    assert s[mid..hi] == s[lo..hi][|x|..];
  }

  /** The walk yields the encoded attributes in order, whatever comes before
      them and whatever lies in the buffer past the datagram. */
  lemma AttrsRoundTrip(pre: seq<byte>, attrs: seq<Attr>, pad: seq<byte>, padded: bool)
    requires AllWellFormed(attrs)
    ensures var e := EncodeAttrs(attrs, padded);
            Attrs(pre + e + pad, |pre| + |e|, |pre|, padded) == Ok(attrs)
  {
    var e := EncodeAttrs(attrs, padded);
    assert (pre + e + pad)[|pre|..|pre| + |e|] == e;
    AttrsReadBack(pre + e + pad, |pre| + |e|, |pre|, attrs, padded);
  }

  /** One step of the walk. */
  lemma AttrsCons(buffer: seq<byte>, size: nat, pos: nat, padded: bool, a: Attr, rest: seq<Attr>)
    requires size <= |buffer| && pos < size && pos + 4 <= |buffer| && AttrAt(buffer, size, pos) == a
    requires Attrs(buffer, size, pos + 4 + Advance(a.length, padded), padded) == Ok(rest)
    ensures Attrs(buffer, size, pos, padded) == Ok([a] + rest)
  {
  }

  /** A first match sits after a list without one. */
  lemma {:induction false} FirstMappedAfter(before: seq<Attr>, m: Attr, after: seq<Attr>)
    requires forall i :: 0 <= i < |before| ==> before[i].kind != XOR_MAPPED_ADDRESS
    requires m.kind == XOR_MAPPED_ADDRESS
    ensures FirstMapped(before + [m] + after) == Some(m.value)
    decreases |before|
  {
    if |before| > 0 {
      FirstMappedAfter(before[1..], m, after);
      assert (before + [m] + after)[1..] == before[1..] + [m] + after;
    }
  }

  // ---------------------------------------------------------------------
  // Decoding the response

  datatype Family = IPv4 | IPv6

  /** `NetAddr`. */
  datatype NetAddr = NetAddr(family: Family, hostname: string, port: nat)

  /** The address built from an XOR-MAPPED-ADDRESS value with the family
      octet given. The port needs the two octets at 2..4: `getUint16` on a
      shorter array throws `RangeError`. The host is the octets at 4..8,
      as many as there are, XORed with the cookie and joined by '.'. */
  function DecodeXorMapped(familyOctet: byte, value: seq<byte>): (r: Result<NetAddr>)
    ensures r.Err? <==> |value| < 4
    ensures r.Err? ==> r.error == RANGE_ERROR
    ensures r.Ok? ==> (r.value.family == IPv4 <==> familyOctet == FAMILY_IPV4)
    ensures r.Ok? ==> r.value.port < 0x1_0000
  {
    var port := XorSeq(Sub(value, 2, 4), MAGIC);
    if |port| < 2 then Err(RANGE_ERROR)
    else Ok(NetAddr(if familyOctet == FAMILY_IPV4 then IPv4 else IPv6,
                    Join(DecimalParts(XorSeq(Sub(value, 4, 8), MAGIC)), "."),
                    U16(port[0], port[1])))
  }

  /** The XOR-MAPPED-ADDRESS attribute of RFC 5389 section 15.2 for an IPv4
      address: a zero octet, the family, the port XORed with the cookie's
      high half, the address XORed with the cookie. */
  function XorMappedAttr(family: byte, ip: seq<byte>, port: nat): (a: Attr)
    requires |ip| == 4 && port < 0x1_0000
    ensures WellFormed(a) && a.kind == XOR_MAPPED_ADDRESS && a.length == 8
  {
    var v := [0, family] + XorSeq(Be16(port), MAGIC) + XorSeq(ip, MAGIC);
    Attr(XOR_MAPPED_ADDRESS, |v|, v)
  }

  /** Decoding an encoded XOR-MAPPED-ADDRESS value gives the address and
      port back, the host in dotted-decimal text. */
  lemma DecodeXorMappedRoundTrip(familyOctet: byte, family: byte, ip: seq<byte>, port: nat)
    requires |ip| == 4 && port < 0x1_0000
    ensures DecodeXorMapped(familyOctet, XorMappedAttr(family, ip, port).value)
         == Ok(NetAddr(if familyOctet == FAMILY_IPV4 then IPv4 else IPv6, DottedQuad(ip), port))
  {
    var v := XorMappedAttr(family, ip, port).value;
    var pb := Be16(port);
    assert Sub(v, 2, 4) == XorSeq(pb, MAGIC);
    assert Sub(v, 4, 8) == XorSeq(ip, MAGIC);
    XorSeqTwice(pb, MAGIC);
    XorSeqTwice(ip, MAGIC);
  }

  /** What `timingSafeEqual(data.subarray(8, 20), transactionId)` and the
      type check demand of a response: `getUint16(0)` on the buffer needs
      two octets, the type must be Binding success, and octets 8..20 of the
      datagram must be the transaction id (arrays of different lengths are
      unequal). The error thrown otherwise, or `None`. */
  function CheckResponse(txid: seq<byte>, buffer: seq<byte>, size: nat): (r: Option<string>)
    requires |txid| == 12 && size <= |buffer|
    ensures r.None? ==> |buffer| >= 2 && size >= HEADER_SIZE && buffer[8..HEADER_SIZE] == txid
  {
    if |buffer| < 2 then Some(RANGE_ERROR)
    else if U16(buffer[0], buffer[1]) != BINDING_SUCCESS then Some(INVALID_RESPONSE)
    else if Sub(buffer[..size], 8, HEADER_SIZE) != txid then Some(INVALID_TXID)
    else None
  }

  /** `getMappedAddress` after the datagram has arrived. The family octet is
      read through `new DataView(attr.value.buffer)`, a view of the whole
      receive buffer: it is octet 1 of the message, not of the attribute. */
  function GetMappedAddress(txid: seq<byte>, buffer: seq<byte>, size: nat): (r: Result<Option<NetAddr>>)
    requires |txid| == 12 && size <= |buffer|
    ensures |buffer| < 2 ==> r == Err(RANGE_ERROR)
    ensures |buffer| >= 2 && U16(buffer[0], buffer[1]) != BINDING_SUCCESS ==> r == Err(INVALID_RESPONSE)
    ensures r.Ok? ==> U16(buffer[0], buffer[1]) == BINDING_SUCCESS
                      && size >= HEADER_SIZE && buffer[8..HEADER_SIZE] == txid
  {
    match CheckResponse(txid, buffer, size)
    case Some(e) => Err(e)
    case None =>
      match FindMapped(buffer, size, HEADER_SIZE, false)
      case Err(e) => Err(e)
      case Ok(None) => Ok(None)
      case Ok(Some(value)) =>
        match DecodeXorMapped(buffer[1], value)
        case Err(e) => Err(e)
        case Ok(addr) => Ok(Some(addr))
  }

  /** A response with the right type whose octets 8..20 are not the
      transaction id is rejected. */
  lemma WrongTxidRejected(txid: seq<byte>, buffer: seq<byte>, size: nat)
    requires |txid| == 12 && size <= |buffer|
    requires |buffer| >= 2 && U16(buffer[0], buffer[1]) == BINDING_SUCCESS
    requires size < HEADER_SIZE || buffer[8..HEADER_SIZE] != txid
    ensures GetMappedAddress(txid, buffer, size) == Err(INVALID_TXID)
  {
  }

  /** The header of a Binding success response for a transaction. */
  function ResponseHeader(txid: seq<byte>, length: nat): (h: seq<byte>)
    requires |txid| == 12 && length < 0x1_0000
    ensures |h| == HEADER_SIZE
  {
    Be16(BINDING_SUCCESS) + Be16(length) + MAGIC + txid
  }

  /** A Binding success response for a transaction: the header with the
      length of the encoded attributes in its sixteen bits, then the
      attributes. */
  function BindingResponse(txid: seq<byte>, attrs: seq<Attr>, padded: bool): (m: seq<byte>)
    requires |txid| == 12 && AllWellFormed(attrs)
  {
    var body := EncodeAttrs(attrs, padded);
    ResponseHeader(txid, |body| % 0x1_0000) + body
  }

  /** The response header states its type, length, cookie and transaction
      id. */
  lemma ResponseHeaderFields(txid: seq<byte>, length: nat)
    requires |txid| == 12 && length < 0x1_0000
    ensures var h := ResponseHeader(txid, length);
            && ParseHeader(h) == Some(Header(BINDING_SUCCESS, length, MAGIC_COOKIE, txid))
            && h[1] == FAMILY_IPV4
  {
    MagicIsCookie();
    HeaderOf(Be16(BINDING_SUCCESS), Be16(length), MAGIC, txid, []);
    assert ResponseHeader(txid, length) + [] == ResponseHeader(txid, length);
  }

  /** A response built by `BindingResponse` passes the checks for its own
      transaction, read past the datagram or not. */
  lemma ResponsePasses(txid: seq<byte>, attrs: seq<Attr>, padded: bool, pad: seq<byte>)
    requires |txid| == 12 && AllWellFormed(attrs)
    ensures var m := BindingResponse(txid, attrs, padded);
            && CheckResponse(txid, m + pad, |m|).None?
            && (m + pad)[1] == FAMILY_IPV4
  {
    var e := EncodeAttrs(attrs, padded);
    var h := ResponseHeader(txid, |e| % 0x1_0000);
    var m := BindingResponse(txid, attrs, padded);
    ResponseHeaderFields(txid, |e| % 0x1_0000);
    assert (m + pad)[..|m|][8..HEADER_SIZE] == h[8..HEADER_SIZE];
  }

  /** The attributes of a response built by `BindingResponse` read back, and
      its checks pass. */
  lemma ResponseReads(txid: seq<byte>, attrs: seq<Attr>, padded: bool, pad: seq<byte>)
    requires |txid| == 12 && AllWellFormed(attrs)
    ensures var m := BindingResponse(txid, attrs, padded);
            && CheckResponse(txid, m + pad, |m|).None?
            && (m + pad)[1] == FAMILY_IPV4
            && Attrs(m + pad, |m|, HEADER_SIZE, padded) == Ok(attrs)
  {
    var e := EncodeAttrs(attrs, padded);
    var h := ResponseHeader(txid, |e| % 0x1_0000);
    var m := BindingResponse(txid, attrs, padded);
    ResponsePasses(txid, attrs, padded, pad);
    AttrsRoundTrip(h, attrs, pad, padded);
    assert m + pad == h + e + pad && |m| == |h| + |e| && |h| == HEADER_SIZE;
  }

  /** A response with an XOR-MAPPED-ADDRESS after attributes of other types
      decodes to that address and port, read past the datagram or not.
      Whatever family the attribute states, the result says IPv4. */
  lemma MappedAddressRoundTrip(txid: seq<byte>, before: seq<Attr>, family: byte, ip: seq<byte>, port: nat,
                               after: seq<Attr>, pad: seq<byte>)
    requires |txid| == 12 && |ip| == 4 && port < 0x1_0000
    requires AllWellFormed(before) && AllWellFormed(after)
    requires forall i :: 0 <= i < |before| ==> before[i].kind != XOR_MAPPED_ADDRESS
    requires var attrs := before + [XorMappedAttr(family, ip, port)] + after;
             AllWellFormed(attrs)
    ensures var m := BindingResponse(txid, before + [XorMappedAttr(family, ip, port)] + after, false);
            GetMappedAddress(txid, m + pad, |m|) == Ok(Some(NetAddr(IPv4, DottedQuad(ip), port)))
  {
    var x := XorMappedAttr(family, ip, port);
    var attrs := before + [x] + after;
    var m := BindingResponse(txid, attrs, false);
    ResponseReads(txid, attrs, false, pad);
    FindMappedAgrees(m + pad, |m|, HEADER_SIZE, false);
    FirstMappedAfter(before, x, after);
    DecodeXorMappedRoundTrip(0x01, family, ip, port);
  }

  /** Every address `getMappedAddress` returns says IPv4: the family octet
      it reads is the low octet of the message type, which the type check
      has fixed to 0x01. */
  lemma FamilyAlwaysIpv4(txid: seq<byte>, buffer: seq<byte>, size: nat)
    requires |txid| == 12 && size <= |buffer|
    requires GetMappedAddress(txid, buffer, size).Ok?
    requires GetMappedAddress(txid, buffer, size).value.Some?
    ensures GetMappedAddress(txid, buffer, size).value.value.family == IPv4
  {
    assert buffer[1] == U16(buffer[0], buffer[1]) % 256;
  }

  /** The search reads nothing before its starting position. */
  lemma {:induction false} FindMappedReadsFrom(b1: seq<byte>, b2: seq<byte>, size: nat, pos: nat, padded: bool)
    requires |b1| == |b2| && size <= |b1| && pos <= |b1|
    requires b1[pos..] == b2[pos..]
    ensures FindMapped(b1, size, pos, padded) == FindMapped(b2, size, pos, padded)
    decreases size - pos
  {
    if pos < size && pos + 4 <= |b1| {
      AttrAtFrom(b1, b2, size, pos);
      var a := AttrAt(b2, size, pos);
      var next := pos + 4 + Advance(a.length, padded);
      FindMappedStep(b1, size, pos, padded);
      FindMappedStep(b2, size, pos, padded);
      if next <= |b1| {
        assert b1[next..] == b1[pos..][next - pos..];
        assert b2[next..] == b2[pos..][next - pos..];
        FindMappedReadsFrom(b1, b2, size, next, padded);
      } else {
        assert FindMapped(b1, size, next, padded) == Ok(None) == FindMapped(b2, size, next, padded);
      }
    } else if pos >= size {
      assert FindMapped(b1, size, pos, padded) == Ok(None) == FindMapped(b2, size, pos, padded);
    } else {
      assert FindMapped(b1, size, pos, padded) == Err(RANGE_ERROR) == FindMapped(b2, size, pos, padded);
    }
  }

  /** The attribute at `pos` depends only on the octets from `pos` on. */
  lemma AttrAtFrom(b1: seq<byte>, b2: seq<byte>, size: nat, pos: nat)
    requires |b1| == |b2| && size <= |b1| && pos + 4 <= |b1|
    requires b1[pos..] == b2[pos..]
    ensures AttrAt(b1, size, pos) == AttrAt(b2, size, pos)
  {
    assert b1[pos] == b1[pos..][0] && b2[pos] == b2[pos..][0];
    assert b1[pos + 1] == b1[pos..][1] && b2[pos + 1] == b2[pos..][1];
    assert b1[pos + 2] == b1[pos..][2] && b2[pos + 2] == b2[pos..][2];
    assert b1[pos + 3] == b1[pos..][3] && b2[pos + 3] == b2[pos..][3];
    var a := AttrAt(b2, size, pos);
    AttrValue(b1, size, pos);
    AttrValue(b2, size, pos);
    if pos + 4 <= size {
      var end := if pos + 4 + a.length <= size then pos + 4 + a.length else size;
      assert b1[pos + 4..end] == b1[pos..][4..end - pos];
      assert b2[pos + 4..end] == b2[pos..][4..end - pos];
    }
  }

  /** The length field and the magic cookie of the response are never
      checked: changing any of octets 2..8 changes nothing. */
  lemma HeaderFieldsIgnored(txid: seq<byte>, buffer: seq<byte>, size: nat, i: nat, v: byte)
    requires |txid| == 12 && size <= |buffer| && 2 <= i < 8 && i < |buffer|
    ensures GetMappedAddress(txid, buffer[i := v], size) == GetMappedAddress(txid, buffer, size)
  {
    var b := buffer[i := v];
    if size >= HEADER_SIZE {
      assert b[..size][8..HEADER_SIZE] == buffer[..size][8..HEADER_SIZE];
    }
    assert Sub(b[..size], 8, HEADER_SIZE) == Sub(buffer[..size], 8, HEADER_SIZE);
    if HEADER_SIZE <= |buffer| {
      assert b[HEADER_SIZE..] == buffer[HEADER_SIZE..];
      FindMappedReadsFrom(b, buffer, size, HEADER_SIZE, false);
    }
  }

  // ---------------------------------------------------------------------
  // The corrected decoder

  /** `getMappedAddress` reading the family from octet 1 of the attribute's
      value and stepping over the padding after each value. */
  function GetMappedAddressCorrected(txid: seq<byte>, buffer: seq<byte>, size: nat): (r: Result<Option<NetAddr>>)
    requires |txid| == 12 && size <= |buffer|
    ensures r.Ok? ==> |buffer| >= 2 && U16(buffer[0], buffer[1]) == BINDING_SUCCESS
                      && size >= HEADER_SIZE && buffer[8..HEADER_SIZE] == txid
  {
    match CheckResponse(txid, buffer, size)
    case Some(e) => Err(e)
    case None =>
      match FindMapped(buffer, size, HEADER_SIZE, true)
      case Err(e) => Err(e)
      case Ok(None) => Ok(None)
      case Ok(Some(value)) =>
        match DecodeXorMapped(At(value, 1), value)
        case Err(e) => Err(e)
        case Ok(addr) => Ok(Some(addr))
  }

  /** A response laid out as RFC 5389 section 15 lays it out decodes to the
      address, the port and the family the attribute states. */
  lemma CorrectedRoundTrip(txid: seq<byte>, before: seq<Attr>, family: byte, ip: seq<byte>, port: nat,
                           after: seq<Attr>, pad: seq<byte>)
    requires |txid| == 12 && |ip| == 4 && port < 0x1_0000
    requires AllWellFormed(before) && AllWellFormed(after)
    requires forall i :: 0 <= i < |before| ==> before[i].kind != XOR_MAPPED_ADDRESS
    requires var attrs := before + [XorMappedAttr(family, ip, port)] + after;
             AllWellFormed(attrs)
    ensures var m := BindingResponse(txid, before + [XorMappedAttr(family, ip, port)] + after, true);
            GetMappedAddressCorrected(txid, m + pad, |m|)
            == Ok(Some(NetAddr(if family == FAMILY_IPV4 then IPv4 else IPv6, DottedQuad(ip), port)))
  {
    var x := XorMappedAttr(family, ip, port);
    var attrs := before + [x] + after;
    var m := BindingResponse(txid, attrs, true);
    ResponseReads(txid, attrs, true, pad);
    FindMappedAgrees(m + pad, |m|, HEADER_SIZE, true);
    FirstMappedAfter(before, x, after);
    DecodeXorMappedRoundTrip(family, family, ip, port);
  }

  // ---------------------------------------------------------------------
  // The two readings side by side

  /** A transaction id of zeros, for the examples. */
  const EXAMPLE_TXID: seq<byte> := Zeros(12)

  /** An IPv6-family attribute (family octet 0x02) is reported as IPv4 by
      the code as written and as IPv6 by the corrected decoder. */
  lemma Ipv6FamilyReadAsIpv4()
    ensures var m := BindingResponse(EXAMPLE_TXID, [XorMappedAttr(FAMILY_IPV6, [192, 0, 2, 1], 3478)], false);
            && GetMappedAddress(EXAMPLE_TXID, m, |m|) == Ok(Some(NetAddr(IPv4, DottedQuad([192, 0, 2, 1]), 3478)))
            && GetMappedAddressCorrected(EXAMPLE_TXID, m, |m|) == Ok(Some(NetAddr(IPv6, DottedQuad([192, 0, 2, 1]), 3478)))
  {
    var x := XorMappedAttr(FAMILY_IPV6, [192, 0, 2, 1], 3478);
    assert [x] == [] + [x] + [];
    assert EncodeAttrs([x], true) == EncodeAttrs([x], false);
    MappedAddressRoundTrip(EXAMPLE_TXID, [], FAMILY_IPV6, [192, 0, 2, 1], 3478, [], []);
    CorrectedRoundTrip(EXAMPLE_TXID, [], FAMILY_IPV6, [192, 0, 2, 1], 3478, [], []);
    var m := BindingResponse(EXAMPLE_TXID, [x], false);
    assert m + [] == m;
  }

  /** A one-octet SOFTWARE value, as RFC 5389 section 15 pads it. */
  const EXAMPLE_SOFTWARE := Attr(0x8022, 1, [0x61])

  lemma SoftwareEncoding()
    ensures EncodeAttr(EXAMPLE_SOFTWARE, true) == [0x80, 0x22, 0x00, 0x01, 0x61, 0, 0, 0]
  {
    assert Be16(0x8022) == [0x80, 0x22] && Be16(1) == [0, 1];
    assert Advance(1, true) == 4 && Zeros(3) == [0, 0, 0];
  }

  lemma MappedEncodingHead(ip: seq<byte>, port: nat)
    requires |ip| == 4 && port < 0x1_0000
    ensures var e := EncodeAttr(XorMappedAttr(FAMILY_IPV4, ip, port), true);
            |e| == 12 && e[0] == 0 && e[1] == 0x20 && e[2] == 0 && e[3] == 8 && e[4] == 0
  {
    var x := XorMappedAttr(FAMILY_IPV4, ip, port);
    assert Be16(XOR_MAPPED_ADDRESS) == [0, 0x20] && Be16(8) == [0, 8];
    assert x.value[0] == 0 && |x.value| == 8;
    assert EncodeAttr(x, true) == [0, 0x20] + [0, 8] + x.value + Zeros(0);
  }

  /** The octets of the padded example response the walk looks at. */
  lemma PaddedExampleOctets(m: seq<byte>, txid: seq<byte>, ip: seq<byte>, port: nat)
    requires |txid| == 12 && |ip| == 4 && port < 0x1_0000
    requires m == BindingResponse(txid, [EXAMPLE_SOFTWARE, XorMappedAttr(FAMILY_IPV4, ip, port)], true)
    ensures |m| == 40
    ensures m[20] == 0x80 && m[21] == 0x22 && m[22] == 0 && m[23] == 1
    ensures m[25] == 0 && m[26] == 0 && m[27] == 0 && m[28] == 0
    ensures m[29] == 0x20 && m[30] == 0 && m[31] == 0x08 && m[32] == 0
  {
    var x := XorMappedAttr(FAMILY_IPV4, ip, port);
    var attrs := [EXAMPLE_SOFTWARE, x];
    var e1 := EncodeAttr(EXAMPLE_SOFTWARE, true);
    var e2 := EncodeAttr(x, true);
    SoftwareEncoding();
    MappedEncodingHead(ip, port);
    assert attrs[1..] == [x] && EncodeAttrs([x], true) == e2;
    var e := EncodeAttrs(attrs, true);
    assert e == e1 + e2;
    var h := ResponseHeader(txid, |e| % 0x1_0000);
    assert m == h + e;
    forall k | 0 <= k < 8
      ensures m[20 + k] == e1[k]
    {
    }
    forall k | 0 <= k < 5
      ensures m[28 + k] == e2[k]
    {
    }
  }

  /** Without padding the walk steps from the one-octet attribute into its
      padding, then reads the address attribute's header shifted by three
      octets: type 0x2000, length 2048, past the end. */
  lemma UnpaddedWalkMisses(m: seq<byte>)
    requires |m| == 40
    requires m[20] == 0x80 && m[21] == 0x22 && m[22] == 0 && m[23] == 1
    requires m[25] == 0 && m[26] == 0 && m[27] == 0 && m[28] == 0
    requires m[29] == 0x20 && m[30] == 0 && m[31] == 0x08 && m[32] == 0
    ensures FindMapped(m, 40, HEADER_SIZE, false) == Ok(None)
  {
    assert AttrAt(m, 40, 20).kind == 0x8022 && AttrAt(m, 40, 20).length == 1;
    assert AttrAt(m, 40, 25).kind == 0 && AttrAt(m, 40, 25).length == 0;
    assert AttrAt(m, 40, 29).kind == 0x2000 && AttrAt(m, 40, 29).length == 0x0800;
    FindMappedSkips(m, 40, 20, false);
    FindMappedSkips(m, 40, 25, false);
    FindMappedSkips(m, 40, 29, false);
  }

  /** A response laid out as RFC 5389 section 15 requires, with a one-octet
      attribute before the XOR-MAPPED-ADDRESS: the code as written steps
      into the padding, reads a type 0x2000 of length 2048 where the
      address starts, and reports no address, whatever the address; the
      corrected decoder finds it. */
  lemma PaddingHidesAddress(txid: seq<byte>, ip: seq<byte>, port: nat)
    requires |txid| == 12 && |ip| == 4 && port < 0x1_0000
    ensures var m := BindingResponse(txid, [EXAMPLE_SOFTWARE, XorMappedAttr(FAMILY_IPV4, ip, port)], true);
            && GetMappedAddress(txid, m, |m|) == Ok(None)
            && GetMappedAddressCorrected(txid, m, |m|) == Ok(Some(NetAddr(IPv4, DottedQuad(ip), port)))
  {
    var x := XorMappedAttr(FAMILY_IPV4, ip, port);
    var m := BindingResponse(txid, [EXAMPLE_SOFTWARE, x], true);
    PaddedExampleOctets(m, txid, ip, port);
    UnpaddedWalkMisses(m);
    ResponsePasses(txid, [EXAMPLE_SOFTWARE, x], true, []);
    assert [EXAMPLE_SOFTWARE] + [x] + [] == [EXAMPLE_SOFTWARE, x];
    CorrectedRoundTrip(txid, [EXAMPLE_SOFTWARE], FAMILY_IPV4, ip, port, [], []);
    assert m + [] == m;
  }
}
