/** The draft engine of socks/socks5-proto2.ts: its own address parser,
    which reads through a view based on the chunk's underlying buffer, and
    its `acceptSocks5` loop.

    The engine differs from `upgradeSocks5` in observable ways: other reply
    codes on a bad request, a greeting whose methods are never read, a
    failed dial that writes nothing and waits for another request, and a
    domain port read at the wrong offset.
 */
module Socks5Proto2 {
  import opened Wrappers
  import opened Bytes
  import opened Text
  import opened Socks5Wire
  import opened Socks5Addr
  import opened Socks5Auth
  import opened Socks5Engine

  /** The sixteen octets as two-digit hex pairs joined by ':'. */
  function PairsText(bs: seq<byte>): (s: string)
    requires |bs| == 16
  {
    Join(seq(16, i requires 0 <= i < 16 => Hex2(bs[i])), ":")
  }

  /** `parseSocks5Addr(c, offset)` where `c` is a view at `byteOffset` into
      a buffer whose octets are `buf`. The `DataView` is built on the whole
      buffer at `offset`, so ATYP and the fixed-size addresses are read from
      absolute positions; the domain name is read from
      `byteOffset + offset + 2` and its port from view index
      `offset + 2 + len`, i.e. absolute `2 * offset + 2 + len`. */
  function ParseAddr(buf: seq<byte>, byteOffset: nat, offset: nat): (r: Result<Address>)
    ensures r == Err(INVALID_ADDR_TYPE) <==>
              offset < |buf| && buf[offset] !in {ATYP_IPV4, ATYP_DOMAIN, ATYP_IPV6}
    ensures r.Ok? && r.value.kind == DomainName ==>
              offset + 2 <= |buf| && 2 * offset + 4 + buf[offset + 1] <= |buf|
              && byteOffset + offset + 2 + buf[offset + 1] <= |buf|
              && r.value.hostname == DecodeAscii(buf[byteOffset + offset + 2..byteOffset + offset + 2 + buf[offset + 1]])
              && r.value.port == U16(buf[2 * offset + 2 + buf[offset + 1]], buf[2 * offset + 3 + buf[offset + 1]])
  {
    if offset >= |buf| then Err(RANGE_ERROR)
    else
      var t := buf[offset];
      if t == ATYP_IPV4 then
        if offset + 7 > |buf| then Err(RANGE_ERROR)
        else Ok(Address(IPv4, DottedQuad(buf[offset + 1..offset + 5]), U16(buf[offset + 5], buf[offset + 6])))
      else if t == ATYP_IPV6 then
        if offset + 19 > |buf| then Err(RANGE_ERROR)
        else Ok(Address(IPv6, PairsText(buf[offset + 1..offset + 17]), U16(buf[offset + 17], buf[offset + 18])))
      else if t == ATYP_DOMAIN then
        if offset + 2 > |buf| then Err(RANGE_ERROR)
        else
          var len := buf[offset + 1];
          var nameAt := byteOffset + offset + 2;
          var portAt := offset + (offset + 2 + len);
          if nameAt + len > |buf| then Err(RANGE_ERROR)
          else if portAt + 2 > |buf| then Err(RANGE_ERROR)
          else Ok(Address(DomainName, DecodeAscii(buf[nameAt..nameAt + len]), U16(buf[portAt], buf[portAt + 1])))
      else Err(INVALID_ADDR_TYPE)
  }

  // ---------------------------------------------------------------------
  // The engine

  /** `options.auth`: present or not, with or without a password validator. */
  datatype AuthOptions = AuthOptions(password: Option<Credentials -> bool>)

  /** The options of the draft: `noAuth` (absent reads as false) and `auth`. */
  datatype Options2 = Options2(noAuth: bool, auth: Option<AuthOptions>)

  /** The draft's `acceptConn` codes. */
  const GENERAL_FAILURE: byte := 0x01
  const NOT_ALLOWED: byte := 0x02

  /** How a step ends: the loop goes on, the function returns (the handoff,
      or `undefined`), or it throws. */
  datatype Outcome2 = Next | Return(handoff: Option<Address>) | Throw(reason: string)

  datatype Step2Out = Step2Out(state: State, writes: seq<seq<byte>>, closedWriter: bool, outcome: Outcome2)

  /** The reply to a granted request: ATYP IPv4, the bound address and the
      local port as `(port >> 8) & 0xff, port & 0xff`. */
  function GrantReply(bndAddr: seq<byte>, localPort: nat): (r: seq<byte>)
    ensures |r| == 6 + |bndAddr| && r[..4] == [VER, 0x00, RSV, ATYP_IPV4]
    ensures localPort < 0x1_0000 ==> r[4 + |bndAddr|..] == BeBytes(localPort, 2)
  {
    U16OfBeBytes(localPort % 0x1_0000);
    [VER, 0x00, RSV, ATYP_IPV4] + bndAddr + [(localPort / 256) % 256, localPort % 256]
  }

  function Step2(o: Options2, bndAddr: seq<byte>, localPort: nat, state: State, c: seq<byte>, dial: DialResult)
    : (r: Step2Out)
    requires state != Close && state != Open
    ensures r.outcome == Next ==> r.state != Open && !r.closedWriter
    ensures r.outcome.Return? && r.outcome.handoff.Some? ==>
              r.state == Open && r.writes == [GrantReply(bndAddr, localPort)]
  {
    match state
    case ClientHello =>
      if |c| == 0 then Step2Out(state, [], false, Throw(RANGE_ERROR))
      else if c[0] != VER then Step2Out(Close, [[VER, GENERAL_FAILURE]], true, Return(None))
      else if o.auth.None? || o.noAuth then Step2Out(ClientRequest, [AcceptAuthMethod(Some(NO_AUTH))], false, Next)
      else if o.auth.value.password.Some? then Step2Out(ClientAuth, [AcceptAuthMethod(Some(PASSWORD))], false, Next)
      else Step2Out(state, [], false, Next)
    case ClientAuth =>
      (match ParseAuthPassword(c)
       case Err(e) => Step2Out(state, [], false, Throw(e))
       case Ok(cred) =>
         if o.auth.Some? && o.auth.value.password.Some? then
           var granted := o.auth.value.password.value(cred);
           Step2Out(if granted then ClientRequest else Close, [AuthGranted(granted)], false, Next)
         else Step2Out(state, [], false, Next))
    case ClientRequest =>
      if |c| < 1 then Step2Out(state, [], false, Throw(RANGE_ERROR))
      else if c[0] != VER then Step2Out(Close, [[VER, GENERAL_FAILURE]], true, Return(None))
      else if |c| < 2 then Step2Out(state, [], false, Throw(RANGE_ERROR))
      else if c[1] != CMD_CONNECT then Step2Out(Close, [[VER, NOT_ALLOWED]], true, Return(None))
      else if |c| < 3 then Step2Out(state, [], false, Throw(RANGE_ERROR))
      else if c[2] != RSV then Step2Out(Close, [[VER, GENERAL_FAILURE]], true, Return(None))
      // `new Uint8Array(c.buffer, 4)` needs four octets
      else if |c| < 4 then Step2Out(state, [], false, Throw(RANGE_ERROR))
      else
        match ParseAddr(c, 4, 3)
        case Err(e) => Step2Out(state, [], false, Throw(e))
        case Ok(addr) =>
          match dial
          case DialFailed => Step2Out(state, [], false, Next)
          case Dialed(_) => Step2Out(Open, [GrantReply(bndAddr, localPort)], false, Return(Some(addr)))
  }

  datatype Run2Out = Run2Out(writes: seq<seq<byte>>, closedWriter: bool, result: Outcome2)

  /** The loop: a Close state breaks it, and falling out of it returns `undefined`. */
  function Run2(o: Options2, bndAddr: seq<byte>, localPort: nat, state: State, inputs: seq<Input>): (r: Run2Out)
    requires state != Open
    ensures r.result != Next
    decreases |inputs|
  {
    if state == Close || |inputs| == 0 then Run2Out([], false, Return(None))
    else
      var s := Step2(o, bndAddr, localPort, state, inputs[0].chunk, inputs[0].dial);
      if s.outcome != Next then Run2Out(s.writes, s.closedWriter, s.outcome)
      else
        var rest := Run2(o, bndAddr, localPort, s.state, inputs[1..]);
        Run2Out(s.writes + rest.writes, s.closedWriter || rest.closedWriter, rest.result)
  }

  // ---------------------------------------------------------------------
  // Properties

  /** The greeting's methods are never read: two greetings that agree on
      the version octet get the same answer. */
  lemma GreetingIgnoresMethods(o: Options2, bndAddr: seq<byte>, localPort: nat, c1: seq<byte>, c2: seq<byte>,
                               d1: DialResult, d2: DialResult)
    requires |c1| > 0 && |c2| > 0 && c1[0] == c2[0]
    ensures Step2(o, bndAddr, localPort, ClientHello, c1, d1) == Step2(o, bndAddr, localPort, ClientHello, c2, d2)
  {
  }

  /** With `auth` given but no password validator and `noAuth` unset,
      a version-5 greeting is not answered and the state stays ClientHello. */
  lemma UnansweredGreeting(bndAddr: seq<byte>, localPort: nat, c: seq<byte>, d: DialResult)
    requires |c| > 0 && c[0] == VER
    ensures Step2(Options2(false, Some(AuthOptions(None))), bndAddr, localPort, ClientHello, c, d)
         == Step2Out(ClientHello, [], false, Next)
  {
  }

  /** A malformed request header is answered with the draft's codes:
      general failure for the version and the reserved octet, "not allowed
      by ruleset" for the command. */
  lemma RequestRejections(o: Options2, bndAddr: seq<byte>, localPort: nat, c: seq<byte>, d: DialResult)
    ensures |c| >= 1 && c[0] != VER ==>
              Step2(o, bndAddr, localPort, ClientRequest, c, d) == Step2Out(Close, [[VER, 0x01]], true, Return(None))
    ensures |c| >= 2 && c[0] == VER && c[1] != CMD_CONNECT ==>
              Step2(o, bndAddr, localPort, ClientRequest, c, d) == Step2Out(Close, [[VER, 0x02]], true, Return(None))
    ensures |c| >= 3 && c[0] == VER && c[1] == CMD_CONNECT && c[2] != RSV ==>
              Step2(o, bndAddr, localPort, ClientRequest, c, d) == Step2Out(Close, [[VER, 0x01]], true, Return(None))
  {
  }

  /** A failed dial writes nothing and keeps waiting for a request. */
  lemma DialFailureWaits(o: Options2, bndAddr: seq<byte>, localPort: nat, c: seq<byte>)
    requires HeaderOk(c) && ParseAddr(c, 4, 3).Ok?
    ensures Step2(o, bndAddr, localPort, ClientRequest, c, DialFailed) == Step2Out(ClientRequest, [], false, Next)
  {
  }

  /** IPv4 requests are read as the current engine reads them. */
  lemma Ipv4AsCurrent(header: seq<byte>, d: Destination)
    requires |header| == 3 && ValidDestination(d) && d.V4?
    ensures ParseAddr(header + EncodeDestination(d), 4, 3) == DecodeAddress(header + EncodeDestination(d), 3)
  {
  }

  /** Every domain request is rejected with a RangeError: the name is
      looked for four octets too late, past the end of the request. */
  lemma {:induction false} DomainAlwaysThrows(o: Options2, bndAddr: seq<byte>, localPort: nat, d: Destination,
                                              dial: DialResult)
    requires ValidDestination(d) && d.Domain?
    ensures Step2(o, bndAddr, localPort, ClientRequest, ConnectRequest(d), dial)
         == Step2Out(ClientRequest, [], false, Throw(RANGE_ERROR))
  {
    var c := ConnectRequest(d);
    assert c == [VER, CMD_CONNECT, RSV] + ([ATYP_DOMAIN, |d.name|] + d.name + BeBytes(d.dport, 2));
    assert |c| == 7 + |d.name|;
    assert c[3] == ATYP_DOMAIN && c[4] == |d.name|;
    assert ParseAddr(c, 4, 3) == Err(RANGE_ERROR);
  }

  /** Called on the chunk itself (byte offset 0) the draft parser finds the
      name, but reads the port three octets past it. */
  lemma {:induction false} DomainPortMisplaced(d: Destination)
    requires ValidDestination(d) && d.Domain?
    ensures ParseAddr(ConnectRequest(d), 0, 3) == Err(RANGE_ERROR)
  {
    var c := ConnectRequest(d);
    assert c == [VER, CMD_CONNECT, RSV] + ([ATYP_DOMAIN, |d.name|] + d.name + BeBytes(d.dport, 2));
    assert |c| == 7 + |d.name|;
    assert c[3] == ATYP_DOMAIN && c[4] == |d.name|;
  }

  /** The domain vector of socks/utils.test.ts, which the current engine
      reads as one.one.one.one:853, makes the draft throw. */
  lemma DomainVectorThrows(o: Options2, bndAddr: seq<byte>, localPort: nat, dial: DialResult)
    ensures Step2(o, bndAddr, localPort, ClientRequest,
                  [0x05, 0x01, 0x00, 0x03, 15] + EncodeAscii("one.one.one.one") + [0x03, 0x55], dial).outcome
         == Throw(RANGE_ERROR)
  {
    var n := EncodeAscii("one.one.one.one");
    var d := Domain(n, 853);
    U16OfBeBytes(853);
    assert ConnectRequest(d) == [0x05, 0x01, 0x00, 0x03, 15] + n + [0x03, 0x55];
    DomainAlwaysThrows(o, bndAddr, localPort, d, dial);
  }

  /** A full negotiation without authentication: the first dial fails
      silently, a second request succeeds and is handed over. */
  lemma RetryAfterDialFailure(bndAddr: seq<byte>, localPort: nat, d: Destination, peer: string)
    requires ValidDestination(d) && d.V4?
    ensures Run2(Options2(false, None), bndAddr, localPort, ClientHello,
                 [Input([VER, 1, NO_AUTH], DialFailed), Input(ConnectRequest(d), DialFailed),
                  Input(ConnectRequest(d), Dialed(peer))])
         == Run2Out([[VER, NO_AUTH], GrantReply(bndAddr, localPort)], false, Return(Some(Denoted(d))))
  {
    var c := ConnectRequest(d);
    ConnectRequestDecodes(d);
    Ipv4AsCurrent([VER, CMD_CONNECT, RSV], d);
    var inputs := [Input([VER, 1, NO_AUTH], DialFailed), Input(c, DialFailed), Input(c, Dialed(peer))];
    var o := Options2(false, None);
    assert inputs[1..] == [Input(c, DialFailed), Input(c, Dialed(peer))];
    assert inputs[1..][1..] == [Input(c, Dialed(peer))];
    assert Run2(o, bndAddr, localPort, ClientRequest, [Input(c, Dialed(peer))])
        == Run2Out([GrantReply(bndAddr, localPort)], false, Return(Some(Denoted(d))));
    assert Run2(o, bndAddr, localPort, ClientRequest, inputs[1..])
        == Run2Out([GrantReply(bndAddr, localPort)], false, Return(Some(Denoted(d))));
  }

  /** Once the state is Close the loop ends with `undefined` and writes nothing. */
  lemma ClosedReturnsUndefined(o: Options2, bndAddr: seq<byte>, localPort: nat, inputs: seq<Input>)
    ensures Run2(o, bndAddr, localPort, Close, inputs) == Run2Out([], false, Return(None))
  {
  }

  /** The password path: the verdict decides between `[1,0]` and `[1,1]`. */
  lemma PasswordVerdict(validator: Credentials -> bool, bndAddr: seq<byte>, localPort: nat,
                        user: seq<byte>, pass: seq<byte>, d: DialResult)
    requires |user| < 256 && |pass| < 256
    ensures (var granted := validator(Credentials(DecodeAscii(user), DecodeAscii(pass)));
             Step2(Options2(false, Some(AuthOptions(Some(validator)))), bndAddr, localPort, ClientAuth,
                   EncodeAuthRequest(user, pass), d)
             == Step2Out(if granted then ClientRequest else Close, [AuthGranted(granted)], false, Next))
  {
    AuthRoundTrip(user, pass);
  }
}
