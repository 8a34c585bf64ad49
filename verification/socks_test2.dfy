/** The port-40444 handler of socks/test2.ts: two reads into one zeroed
    256-octet buffer, the greeting answered method by method, and the
    request parsed from fixed positions of the buffer.
 */
module Socks5Test2 {
  import opened Wrappers
  import opened Bytes
  import opened Text
  import opened Socks5Wire
  import opened Socks5Addr
  import opened Socks5Engine

  const BUF_SIZE := 256

  /** A zeroed `new Uint8Array(256)`. */
  function ZeroBuffer(): (b: seq<byte>)
    ensures |b| == BUF_SIZE && forall i :: 0 <= i < |b| ==> b[i] == 0
  {
    seq(BUF_SIZE, _ => 0)
  }

  /** `conn.read(buf)`: the octets read overwrite the front of the buffer
      and the rest keeps its old content; `None` is the end of the stream,
      which leaves the buffer as it was. */
  function ReadInto(buf: seq<byte>, read: Option<seq<byte>>): (r: seq<byte>)
    requires |buf| == BUF_SIZE
    ensures |r| == BUF_SIZE
    ensures read.None? ==> r == buf
    ensures read.Some? && |read.value| <= BUF_SIZE ==>
              r[..|read.value|] == read.value && r[|read.value|..] == buf[|read.value|..]
  {
    match read
    case None => buf
    case Some(chunk) =>
      var k := if |chunk| < BUF_SIZE then |chunk| else BUF_SIZE;
      chunk[..k] + buf[k..]
  }

  // ---------------------------------------------------------------------
  // The greeting

  /** How the greeting ends: go on to the request, refuse and close, or
      read past the buffer. */
  datatype GreetEnd = Proceed | Refused | Overrun

  datatype GreetOut = GreetOut(writes: seq<seq<byte>>, end: GreetEnd)

  /** `n` copies of the no-authentication choice `[5,0]`. */
  function Accepts(n: nat): (r: seq<seq<byte>>)
    ensures |r| == n && forall i :: 0 <= i < n ==> r[i] == [VER, NO_AUTH]
  {
    seq(n, _ => [VER, NO_AUTH])
  }

  /** The method octets the loop visits: indexes 2 to `nAuth + 1`, cut at
      the end of the buffer. */
  function Visited(buf: seq<byte>): (ms: seq<byte>)
    requires |buf| == BUF_SIZE
    ensures |ms| <= BUF_SIZE - 2
  {
    var end := if buf[1] + 2 < BUF_SIZE then buf[1] + 2 else BUF_SIZE;
    buf[2..end]
  }

  /** The number of leading zero octets. */
  function LeadingZeros(ms: seq<byte>): (k: nat)
    ensures k <= |ms|
    ensures forall i :: 0 <= i < k ==> ms[i] == 0
    ensures k < |ms| ==> ms[k] != 0
  {
    if |ms| == 0 || ms[0] != 0 then 0 else 1 + LeadingZeros(ms[1..])
  }

  /** The greeting's answer as the source promises it: one `[5,0]` per
      leading no-authentication method, then `[5,0xFF]` and a refusal at
      the first other method; when every declared method is no-authentication
      but the count runs past the buffer, the read at index 256 throws. */
  function Greet(buf: seq<byte>): (r: GreetOut)
    requires |buf| == BUF_SIZE
    // refused exactly when some visited method is not no-authentication;
    // otherwise the read runs past the buffer exactly when the count does
    ensures var ms := Visited(buf);
            && (r.end == Refused <==> exists i :: 0 <= i < |ms| && ms[i] != 0)
            && (r.end == Overrun <==> r.end != Refused && buf[1] + 2 > BUF_SIZE)
    // a refusal answers `[5,0]` for each method before the first other one,
    // then `[5,0xFF]`
    ensures var ms := Visited(buf);
            r.end == Refused ==>
              && 0 < |r.writes| <= |ms|
              && ms[|r.writes| - 1] != 0
              && r.writes[|r.writes| - 1] == [VER, NO_ACCEPTABLE]
              && forall j :: 0 <= j < |r.writes| - 1 ==> ms[j] == 0 && r.writes[j] == [VER, NO_AUTH]
    // otherwise every visited method gets `[5,0]`
    ensures var ms := Visited(buf);
            r.end != Refused ==>
              |r.writes| == |ms| && forall j :: 0 <= j < |ms| ==> r.writes[j] == [VER, NO_AUTH]
  {
    var ms := Visited(buf);
    var k := LeadingZeros(ms);
    if k < |ms| then GreetOut(Accepts(k) + [AcceptAuthMethod(None)], Refused)
    else if buf[1] + 2 > BUF_SIZE then GreetOut(Accepts(k), Overrun)
    else GreetOut(Accepts(k), Proceed)
  }

  /** The `for` loop of the handler, octet by octet. */
  method AnswerMethods(buf: seq<byte>) returns (writes: seq<seq<byte>>, end: GreetEnd)
    requires |buf| == BUF_SIZE
    ensures GreetOut(writes, end) == Greet(buf)
  {
    var nAuth := buf[1];
    var i := 2;
    writes := [];
    while i < nAuth + 2
      invariant 2 <= i <= BUF_SIZE && i <= nAuth + 2
      invariant forall j :: 2 <= j < i ==> buf[j] == 0
      invariant writes == Accepts(i - 2)
    {
      if i >= BUF_SIZE {
        LeadingZerosAll(Visited(buf));
        return writes, Overrun;
      }
      if buf[i] != 0 {
        LeadingZerosAt(Visited(buf), i - 2);
        writes := writes + [AcceptAuthMethod(None)];
        return writes, Refused;
      }
      writes := writes + [[VER, NO_AUTH]];
      i := i + 1;
    }
    LeadingZerosAll(Visited(buf));
    return writes, Proceed;
  }

  lemma {:induction false} LeadingZerosAll(ms: seq<byte>)
    requires forall i :: 0 <= i < |ms| ==> ms[i] == 0
    ensures LeadingZeros(ms) == |ms|
  {
    if |ms| > 0 {
      LeadingZerosAll(ms[1..]);
    }
  }

  lemma {:induction false} LeadingZerosAt(ms: seq<byte>, k: nat)
    requires k < |ms| && ms[k] != 0
    requires forall i :: 0 <= i < k ==> ms[i] == 0
    ensures LeadingZeros(ms) == k
  {
    if k > 0 {
      LeadingZerosAt(ms[1..], k - 1);
    }
  }

  // ---------------------------------------------------------------------
  // The request

  const ADDRESS_TYPE_NOT_SUPPORTED: byte := 0x08
  const CONNECTION_REFUSED: byte := 0x05

  /** How the handler ends: it closes the connection, hands over to the
      relay with the destination, or throws. */
  datatype Test2Result = Closed | Relayed(addr: Address) | Throws(reason: string)

  datatype Test2Out = Test2Out(writes: seq<seq<byte>>, result: Test2Result)

  /** The request's destination: IPv4 from octets 4-7 and 8-9, a domain
      from the length at 4, the name from 5 and the port right after it.
      `None` for any other type; a port past the buffer throws. */
  function RequestAddr(buf: seq<byte>): (r: Result<Option<Address>>)
    requires |buf| == BUF_SIZE
    ensures r.Err? <==> buf[3] == ATYP_DOMAIN && 7 + buf[4] > BUF_SIZE
    ensures r == Ok(None) <==> buf[3] != ATYP_IPV4 && buf[3] != ATYP_DOMAIN
  {
    var atyp := buf[3];
    if atyp == ATYP_IPV4 then Ok(Some(Address(IPv4, DottedQuad(buf[4..8]), U16(buf[8], buf[9]))))
    else if atyp == ATYP_DOMAIN then
      var len := buf[4];
      if 7 + len > BUF_SIZE then Err(RANGE_ERROR)
      else Ok(Some(Address(DomainName, DecodeAscii(Sub(buf, 5, 5 + len)), U16(buf[5 + len], buf[6 + len]))))
    else Ok(None)
  }

  /** The success reply: ATYP IPv4, the bound address and the local port
      written with `setUint16`, which keeps it modulo 2^16. */
  function Granted(bndAddr: seq<byte>, localPort: nat): seq<byte> {
    [VER, 0x00, RSV, ATYP_IPV4] + bndAddr + BeBytes(localPort % 0x1_0000, 2)
  }

  /** The whole handler. */
  function Handle(first: Option<seq<byte>>, second: Option<seq<byte>>, dial: DialResult,
                  bndAddr: seq<byte>, localPort: nat): (r: Test2Out)
    ensures first.None? || first == Some([]) ==> r == Test2Out([], Closed)
    ensures r.result.Relayed? ==> |r.writes| > 0 && r.writes[|r.writes| - 1] == Granted(bndAddr, localPort)
  {
    if first.None? || first == Some([]) then Test2Out([], Closed)
    else
      var buf := ReadInto(ZeroBuffer(), first);
      if buf[0] != VER then Test2Out([], Closed)
      else
        var g := Greet(buf);
        match g.end
        case Refused => Test2Out(g.writes, Closed)
        case Overrun => Test2Out(g.writes, Throws(RANGE_ERROR))
        case Proceed =>
          var buf2 := ReadInto(buf, second);
          if buf2[0] != VER || buf2[1] != CMD_CONNECT then Test2Out(g.writes, Closed)
          else
            match RequestAddr(buf2)
            case Err(e) => Test2Out(g.writes, Throws(e))
            case Ok(None) =>
              Test2Out(g.writes + [[VER, ADDRESS_TYPE_NOT_SUPPORTED, RSV, buf2[3]]], Closed)
            case Ok(Some(addr)) =>
              match dial
              case DialFailed => Test2Out(g.writes + [[VER, CONNECTION_REFUSED, RSV, buf2[3]]], Closed)
              case Dialed(_) => Test2Out(g.writes + [Granted(bndAddr, localPort)], Relayed(addr))
  }

  // ---------------------------------------------------------------------
  // Properties

  /** `[5,2,0,0]` is answered twice with `[5,0]`. */
  lemma TwoNoAuthMethods()
    ensures var buf := ReadInto(ZeroBuffer(), Some([5, 2, 0, 0]));
            Greet(buf) == GreetOut([[VER, NO_AUTH], [VER, NO_AUTH]], Proceed)
  {
    var buf := ReadInto(ZeroBuffer(), Some([5, 2, 0, 0]));
    assert Visited(buf) == [0, 0];
    LeadingZerosAll([0, 0]);
  }

  /** A greeting that declares no method gets no answer at all. */
  lemma NoMethodsNoAnswer(rest: seq<byte>)
    requires |rest| <= BUF_SIZE - 2
    ensures Greet(ReadInto(ZeroBuffer(), Some([5, 0] + rest))) == GreetOut([], Proceed)
  {
    var buf := ReadInto(ZeroBuffer(), Some([5, 0] + rest));
    assert buf[1] == 0;
    assert Visited(buf) == [];
  }

  /** Offering password authentication first is refused with `[5,0xFF]`. */
  lemma PasswordRefused(rest: seq<byte>)
    requires |rest| <= BUF_SIZE - 3
    ensures Greet(ReadInto(ZeroBuffer(), Some([5, 1, PASSWORD] + rest))) == GreetOut([[VER, NO_ACCEPTABLE]], Refused)
  {
    var buf := ReadInto(ZeroBuffer(), Some([5, 1, PASSWORD] + rest));
    assert buf[1] == 1 && buf[2] == PASSWORD;
    assert Visited(buf) == [PASSWORD];
  }

  /** A greeting with a wrong version, or no data at all, is closed without a reply. */
  lemma BadVersionClosed(c: seq<byte>, second: Option<seq<byte>>, dial: DialResult, bndAddr: seq<byte>,
                         localPort: nat)
    requires 1 <= |c| <= BUF_SIZE && c[0] != VER
    ensures Handle(Some(c), second, dial, bndAddr, localPort) == Test2Out([], Closed)
  {
    assert ReadInto(ZeroBuffer(), Some(c))[0] == c[0];
  }

  /** IPv4 and domain requests are read as the current engine reads them. */
  lemma {:induction false} RequestAsCurrent(d: Destination)
    requires ValidDestination(d) && !d.V6? && |ConnectRequest(d)| <= BUF_SIZE
    ensures var buf := ReadInto(ZeroBuffer(), Some(ConnectRequest(d)));
            RequestAddr(buf) == Ok(Some(Denoted(d)))
  {
    var c := ConnectRequest(d);
    var buf := ReadInto(ZeroBuffer(), Some(c));
    ConnectRequestDecodes(d);
    ReadsAsDecoded(buf, c);
  }

  /** A buffer that starts with a decodable IPv4 or domain request is read
      as the request decodes. */
  lemma ReadsAsDecoded(buf: seq<byte>, c: seq<byte>)
    requires |buf| == BUF_SIZE && |c| <= BUF_SIZE && buf[..|c|] == c
    requires DecodeAddress(c, 3).Ok? && DecodeAddress(c, 3).value.kind != IPv6
    ensures RequestAddr(buf) == Ok(Some(DecodeAddress(c, 3).value))
  {
    forall k | 0 <= k < |c|
      ensures buf[k] == c[k]
    {
      assert buf[..|c|][k] == buf[k];
    }
    if c[3] == ATYP_IPV4 {
      assert buf[4..8] == c[4..8];
    } else {
      var len := c[4];
      assert buf[5..5 + len] == c[5..5 + len];
    }
  }

  /** Every IPv6 request is answered "address type not supported" with the
      type octet echoed, and the connection is closed. */
  lemma Ipv6Refused(d: Destination, dial: DialResult, bndAddr: seq<byte>, localPort: nat)
    requires ValidDestination(d) && d.V6?
    ensures Handle(Some([5, 1, NO_AUTH]), Some(ConnectRequest(d)), dial, bndAddr, localPort)
         == Test2Out([[VER, NO_AUTH], [VER, 0x08, 0x00, ATYP_IPV6]], Closed)
  {
    var buf := ReadInto(ZeroBuffer(), Some([5, 1, NO_AUTH]));
    assert buf[1] == 1 && buf[2] == NO_AUTH;
    assert Visited(buf) == [NO_AUTH];
    var c := ConnectRequest(d);
    var buf2 := ReadInto(buf, Some(c));
    assert buf2[..|c|] == c;
    assert buf2[0] == VER && buf2[1] == CMD_CONNECT && buf2[3] == ATYP_IPV6;
  }

  /** A full negotiation: `[5,0]`, then the success reply or, when the
      dial fails, "connection refused" with the type octet echoed. */
  lemma Connect(d: Destination, dial: DialResult, bndAddr: seq<byte>, localPort: nat)
    requires ValidDestination(d) && !d.V6? && |ConnectRequest(d)| <= BUF_SIZE
    ensures var atyp := if d.V4? then ATYP_IPV4 else ATYP_DOMAIN;
            Handle(Some([5, 1, NO_AUTH]), Some(ConnectRequest(d)), dial, bndAddr, localPort)
            == if dial.Dialed? then Test2Out([[VER, NO_AUTH], Granted(bndAddr, localPort)], Relayed(Denoted(d)))
               else Test2Out([[VER, NO_AUTH], [VER, 0x05, 0x00, atyp]], Closed)
  {
    var buf := ReadInto(ZeroBuffer(), Some([5, 1, NO_AUTH]));
    assert buf[1] == 1 && buf[2] == NO_AUTH;
    assert Visited(buf) == [NO_AUTH];
    var c := ConnectRequest(d);
    var buf2 := ReadInto(buf, Some(c));
    assert buf2[..|c|] == c;
    assert buf2[0] == VER && buf2[1] == CMD_CONNECT;
    // the request is read over the greeting, which it is longer than
    assert buf2 == ReadInto(ZeroBuffer(), Some(c)) by {
      assert |c| >= 3;
      assert buf[3..] == ZeroBuffer()[3..];
    }
    RequestAsCurrent(d);
  }
}
