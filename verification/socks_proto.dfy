/** The oldest engine, `acceptSocks5` of socks/socks5-proto.ts, and its
    address parser.

    It answers the first chunk with "no authentication" without reading
    it, checks only the version and command of the request, refuses IPv6,
    dials outside any `try`, and reads a domain name from the wrong place.
 */
module Socks5Proto {
  import opened Wrappers
  import opened Bytes
  import opened Text
  import opened Socks5Wire
  import opened Socks5Addr
  import opened Socks5Engine

  /** What a failed `Deno.connect` throws; the model does not tell errors apart. */
  const CONNECT_ERROR := "ConnectError"
  const READ_ERROR := "Read error"

  /** `parseSocks5Addr(new Uint8Array(c.buffer, 4))`: the view is built on
      the whole buffer at 3, so ATYP is absolute octet 3. IPv6 is not
      supported (`None`, the `false` result). A domain name is sliced from
      absolute octets `1..1+len` (the slice clamps), and the port is read at
      view index `1 + len`, absolute `4 + len`. */
  function ParseAddr(c: seq<byte>): (r: Result<Option<Address>>)
    requires |c| >= 4
    ensures r == Err(INVALID_ADDR_TYPE) <==> c[3] !in {ATYP_IPV4, ATYP_DOMAIN, ATYP_IPV6}
    ensures r == Ok(None) <==> c[3] == ATYP_IPV6
    ensures r.Ok? && r.value.Some? && r.value.value.kind == DomainName ==>
              5 <= |c| && 6 + c[4] <= |c|
              && r.value.value.hostname == DecodeAscii(c[1..1 + c[4]])
              && r.value.value.port == U16(c[4 + c[4]], c[5 + c[4]])
  {
    var t := c[3];
    if t !in {ATYP_IPV4, ATYP_DOMAIN, ATYP_IPV6} then Err(INVALID_ADDR_TYPE)
    else if t == ATYP_IPV4 then
      if |c| < 10 then Err(RANGE_ERROR)
      else Ok(Some(Address(IPv4, DottedQuad(c[4..8]), U16(c[8], c[9]))))
    else if t == ATYP_IPV6 then Ok(None)
    else
      if |c| < 5 then Err(RANGE_ERROR)
      else
        var len := c[4];
        if 6 + len > |c| then Err(RANGE_ERROR)
        else Ok(Some(Address(DomainName, DecodeAscii(Sub(c, 1, 1 + len)), U16(c[4 + len], c[5 + len]))))
  }

  /** The states this engine uses. */
  datatype ProtoState = Hello | AwaitRequest

  datatype ProtoOutcome = Next | Return(handoff: Option<Address>) | Throw(reason: string)

  datatype ProtoStep = ProtoStep(state: ProtoState, writes: seq<seq<byte>>, closedWriter: bool, outcome: ProtoOutcome)

  /** The success reply with the bound address and the local port. */
  function ProtoGrant(bndAddr: seq<byte>, localPort: nat): seq<byte> {
    [VER, 0x00, RSV, ATYP_IPV4] + bndAddr + [(localPort / 256) % 256, localPort % 256]
  }

  function StepProto(bndAddr: seq<byte>, localPort: nat, state: ProtoState, c: seq<byte>, dial: DialResult)
    : (r: ProtoStep)
    ensures state == Hello ==> r == ProtoStep(AwaitRequest, [[VER, NO_AUTH]], false, Next)
    ensures state == AwaitRequest ==> r.outcome != Next
    ensures r.outcome.Return? && r.outcome.handoff.None? ==> r.writes == [] && r.closedWriter
    ensures r.outcome.Return? && r.outcome.handoff.Some? ==>
              dial.Dialed? && r.writes == [ProtoGrant(bndAddr, localPort)] && !r.closedWriter
    ensures r.outcome.Throw? ==> r.writes == [] && !r.closedWriter
  {
    match state
    case Hello => ProtoStep(AwaitRequest, [[VER, NO_AUTH]], false, Next)
    case AwaitRequest =>
      if |c| < 1 then ProtoStep(state, [], false, Throw(RANGE_ERROR))
      else if c[0] != VER then ProtoStep(state, [], true, Return(None))
      else if |c| < 2 then ProtoStep(state, [], false, Throw(RANGE_ERROR))
      else if c[1] != CMD_CONNECT then ProtoStep(state, [], true, Return(None))
      else if |c| < 4 then ProtoStep(state, [], false, Throw(RANGE_ERROR))
      else
        match ParseAddr(c)
        case Err(e) => ProtoStep(state, [], false, Throw(e))
        case Ok(None) => ProtoStep(state, [], false, Throw(TYPE_ERROR))
        case Ok(Some(addr)) =>
          match dial
          case DialFailed => ProtoStep(state, [], false, Throw(CONNECT_ERROR))
          case Dialed(_) => ProtoStep(state, [ProtoGrant(bndAddr, localPort)], false, Return(Some(addr)))
  }

  datatype ProtoRun = ProtoRun(writes: seq<seq<byte>>, closedWriter: bool, result: ProtoOutcome)

  /** The loop; running out of chunks throws 'Read error'. */
  function RunProto(bndAddr: seq<byte>, localPort: nat, state: ProtoState, inputs: seq<Input>): (r: ProtoRun)
    ensures r.result != Next
    decreases |inputs|
  {
    if |inputs| == 0 then ProtoRun([], false, Throw(READ_ERROR))
    else
      var s := StepProto(bndAddr, localPort, state, inputs[0].chunk, inputs[0].dial);
      if s.outcome != Next then ProtoRun(s.writes, s.closedWriter, s.outcome)
      else
        var rest := RunProto(bndAddr, localPort, s.state, inputs[1..]);
        ProtoRun(s.writes + rest.writes, s.closedWriter || rest.closedWriter, rest.result)
  }

  // ---------------------------------------------------------------------
  // Properties

  /** Whatever the first chunk holds, the answer is `[5,0]` and the next
      chunk is read as a request; only the request decides the result. */
  lemma {:induction false} FirstChunkIgnored(bndAddr: seq<byte>, localPort: nat, first: Input, other: Input,
                                             rest: seq<Input>)
    ensures RunProto(bndAddr, localPort, Hello, [first] + rest)
         == RunProto(bndAddr, localPort, Hello, [other] + rest)
    ensures |rest| > 0 ==>
              RunProto(bndAddr, localPort, Hello, [first] + rest)
              == var r := StepProto(bndAddr, localPort, AwaitRequest, rest[0].chunk, rest[0].dial);
                 ProtoRun([[VER, NO_AUTH]] + r.writes, r.closedWriter, r.outcome)
  {
    assert ([first] + rest)[1..] == rest;
    assert ([other] + rest)[1..] == rest;
  }

  /** The reserved octet is never checked: outside a domain request, whose
      misplaced name slice covers it, its value changes nothing. */
  lemma RsvIgnored(bndAddr: seq<byte>, localPort: nat, c: seq<byte>, rsv: byte, dial: DialResult)
    requires |c| >= 3 && (|c| >= 4 ==> c[3] != ATYP_DOMAIN)
    ensures StepProto(bndAddr, localPort, AwaitRequest, c[2 := rsv], dial)
         == StepProto(bndAddr, localPort, AwaitRequest, c, dial)
  {
    var c' := c[2 := rsv];
    if |c| >= 10 {
      assert c'[4..8] == c[4..8];
    }
  }

  /** A bad version or command closes the writer without a reply and
      returns `undefined`. */
  lemma SilentRejection(bndAddr: seq<byte>, localPort: nat, c: seq<byte>, dial: DialResult)
    requires (|c| >= 1 && c[0] != VER) || (|c| >= 2 && c[0] == VER && c[1] != CMD_CONNECT)
    ensures StepProto(bndAddr, localPort, AwaitRequest, c, dial) == ProtoStep(AwaitRequest, [], true, Return(None))
  {
  }

  /** IPv4 requests are read as the current engine reads them. */
  lemma Ipv4AsCurrent(d: Destination)
    requires ValidDestination(d) && d.V4?
    ensures ParseAddr(ConnectRequest(d)) == Ok(Some(DecodeAddress(ConnectRequest(d), 3).value))
  {
    ConnectRequestDecodes(d);
  }

  /** An IPv6 request fails: the parser answers `false`, the writer's lock
      is released and closing it rejects. */
  lemma Ipv6Throws(bndAddr: seq<byte>, localPort: nat, d: Destination, dial: DialResult)
    requires ValidDestination(d) && d.V6?
    ensures StepProto(bndAddr, localPort, AwaitRequest, ConnectRequest(d), dial)
         == ProtoStep(AwaitRequest, [], false, Throw(TYPE_ERROR))
  {
    assert ConnectRequest(d)[3] == ATYP_IPV6;
  }

  /** A failed dial is not caught. */
  lemma DialFailureThrows(bndAddr: seq<byte>, localPort: nat, d: Destination)
    requires ValidDestination(d) && d.V4?
    ensures StepProto(bndAddr, localPort, AwaitRequest, ConnectRequest(d), DialFailed)
         == ProtoStep(AwaitRequest, [], false, Throw(CONNECT_ERROR))
  {
    ConnectRequestDecodes(d);
  }

  /** A domain request is always parsed, but its name starts with the
      request's own command octet: it never equals the requested name
      unless that starts with the character 0x01. */
  lemma {:induction false} DomainMisread(d: Destination)
    requires ValidDestination(d) && d.Domain? && |d.name| >= 1 && d.name[0] != CMD_CONNECT
    ensures ParseAddr(ConnectRequest(d)).Ok?
    ensures ParseAddr(ConnectRequest(d)).value.Some?
    ensures ParseAddr(ConnectRequest(d)).value.value.hostname != DecodeAscii(d.name)
  {
    var c := ConnectRequest(d);
    assert c == [VER, CMD_CONNECT, RSV] + ([ATYP_DOMAIN, |d.name|] + d.name + BeBytes(d.dport, 2));
    assert c[3] == ATYP_DOMAIN && c[4] == |d.name| && c[1] == CMD_CONNECT;
    var h := ParseAddr(c).value.value.hostname;
    assert h[0] == CMD_CONNECT as char;
    assert DecodeAscii(d.name)[0] == d.name[0] as char;
  }

  /** The domain vector of socks/utils.test.ts is read as a name made of
      octets 1..16 of the request, and port 0x6503 ("e" then 0x03). */
  lemma DomainVector()
    ensures var c := [0x05, 0x01, 0x00, 0x03, 15] + EncodeAscii("one.one.one.one") + [0x03, 0x55];
            ParseAddr(c) == Ok(Some(Address(DomainName, DecodeAscii(c[1..16]), 0x6503)))
  {
    var n := EncodeAscii("one.one.one.one");
    var c := [0x05, 0x01, 0x00, 0x03, 15] + n + [0x03, 0x55];
    assert c[19] == n[14] == 'e' as int;
    assert c[20] == 0x03;
  }

  /** The full negotiation of an IPv4 CONNECT: `[5,0]`, then the success reply. */
  lemma Ipv4Connect(bndAddr: seq<byte>, localPort: nat, greeting: seq<byte>, d: Destination, peer: string)
    requires ValidDestination(d) && d.V4?
    ensures RunProto(bndAddr, localPort, Hello,
                     [Input(greeting, DialFailed), Input(ConnectRequest(d), Dialed(peer))])
         == ProtoRun([[VER, NO_AUTH], ProtoGrant(bndAddr, localPort)], false, Return(Some(Denoted(d))))
  {
    ConnectRequestDecodes(d);
    FirstChunkIgnored(bndAddr, localPort, Input(greeting, DialFailed), Input(greeting, DialFailed),
                      [Input(ConnectRequest(d), Dialed(peer))]);
  }
}
