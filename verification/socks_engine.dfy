/** The server side of the SOCKS5 negotiation, `upgradeSocks5` of
    socks/socks5.ts, as a pure step function over the connection states.

    Each readable chunk drives one step. What the step needs from the
    outside world is passed in: the password validator is a pure function
    in the configuration, and the outcome of dialling the destination comes
    with the chunk. The writes a step makes are returned in order, together
    with whether it closed the writer.
 */
module Socks5Engine {
  import opened Wrappers
  import opened Bytes
  import opened Text
  import opened Socks5Wire
  import opened Socks5Addr
  import opened Socks5Auth

  /** `Socks5UpgradeOptions` as the caller passes them: every field may be absent. */
  datatype Options = Options(
    restrictLocal: Option<bool>,
    validator: Option<Credentials -> bool>,
    noAuth: Option<bool>)

  /** The options once their defaults are filled in. */
  datatype Config = Config(restrictLocal: bool, validator: Option<Credentials -> bool>, noAuth: bool)

  /** `restrictLocal` defaults to true; `noAuth` defaults to "no password
      validator was given". */
  function Configure(o: Options): (cfg: Config)
    ensures cfg.restrictLocal <==> o.restrictLocal != Some(false)
    ensures cfg.noAuth <==> (o.noAuth == Some(true) || (o.noAuth.None? && o.validator.None?))
    ensures cfg.validator.Some? <==> o.validator.Some?
  {
    Config(o.restrictLocal.GetOr(true), o.validator, o.noAuth.GetOr(o.validator.None?))
  }

  /** The `bnd` argument: the bound address and port octets the success reply carries. */
  datatype Bound = Bound(addr: seq<byte>, port: seq<byte>)

  /** What `Deno.connect` did for the destination: it failed, or it
      connected to a peer whose remote hostname is given. */
  datatype DialResult = DialFailed | Dialed(peerHost: string)

  /** One chunk of the readable side, and the dial result the request
      step would see if it dials. */
  datatype Input = Input(chunk: seq<byte>, dial: DialResult)

  /** The loop's state: the connection state and the method list the
      greeting collected. */
  datatype Session = Session(state: State, authMethods: seq<byte>)

  /** How a step ends: the loop goes on, the function returns the handoff
      `{state: Open, addr, distConn}`, or it throws. */
  datatype Outcome = Continue | Done(addr: Address, peerHost: string) | Fail(reason: string)

  datatype StepOut = StepOut(session: Session, writes: seq<seq<byte>>, closedWriter: bool, outcome: Outcome)

  const UPGRADE_FAILED := "SOCKS5 Upgrade failed"

  /** The reply every version, command or reserved-octet mismatch writes. */
  const REJECT: seq<byte> := [VER, 0x07]

  // ---------------------------------------------------------------------
  // Method list

  /** The offered methods the server knows (`AUTH[method]` is defined), in order. */
  function KnownMethods(ms: seq<byte>): (r: seq<byte>)
    ensures |r| <= |ms|
    ensures forall i :: 0 <= i < |r| ==> r[i] == NO_AUTH || r[i] == PASSWORD
  {
    if |ms| == 0 then []
    else (if ms[0] == NO_AUTH || ms[0] == PASSWORD then [ms[0]] else []) + KnownMethods(ms[1..])
  }

  /** A method is kept exactly when it is offered and known. */
  lemma {:induction false} KnownMethodsMembership(ms: seq<byte>, x: byte)
    ensures x in KnownMethods(ms) <==> x in ms && (x == NO_AUTH || x == PASSWORD)
  {
    if |ms| > 0 {
      KnownMethodsMembership(ms[1..], x);
      assert ms == [ms[0]] + ms[1..];
    }
  }

  /** Filtering keeps the order of the offer: it distributes over concatenation. */
  lemma {:induction false} KnownMethodsAppend(a: seq<byte>, b: seq<byte>)
    ensures KnownMethods(a + b) == KnownMethods(a) + KnownMethods(b)
  {
    if |a| > 0 {
      assert (a + b)[1..] == a[1..] + b;
      KnownMethodsAppend(a[1..], b);
    } else {
      assert a + b == b;
    }
  }

  // ---------------------------------------------------------------------
  // The three negotiation states

  /** `VER NMETHODS METHODS` with every declared method present. */
  predicate CompleteGreeting(c: seq<byte>) {
    2 <= |c| && c[0] == VER && 2 + c[1] <= |c|
  }

  /** The methods a complete greeting offers. */
  function Offered(c: seq<byte>): seq<byte>
    requires 2 <= |c| && 2 + c[1] <= |c|
  {
    c[2..2 + c[1]]
  }

  /** The ClientHello step: check the version, collect the methods and
      choose one. */
  function Greet(cfg: Config, s: Session, c: seq<byte>): (r: StepOut)
    requires s.state == ClientHello
    ensures |c| == 0 ==> r.outcome == Fail(RANGE_ERROR) && r.writes == [] && !r.closedWriter
    ensures 1 <= |c| && c[0] != VER ==>
              r.writes == [REJECT] && r.closedWriter && r.outcome == Fail(UPGRADE_FAILED)
    ensures 1 <= |c| && c[0] == VER && !CompleteGreeting(c) ==>
              r.writes == [] && !r.closedWriter && r.outcome == Fail(RANGE_ERROR)
    ensures r.outcome == Continue <==> CompleteGreeting(c)
    ensures CompleteGreeting(c) ==>
              && !r.closedWriter
              && r.session.authMethods == s.authMethods + KnownMethods(Offered(c))
              && (r.session.state == ClientRequest <==> cfg.noAuth && NO_AUTH in Offered(c))
              && (r.session.state == ClientAuth <==>
                    !(cfg.noAuth && NO_AUTH in Offered(c)) && cfg.validator.Some? && PASSWORD in Offered(c))
              && (r.session.state == ClientRequest ==> r.writes == [AcceptAuthMethod(Some(NO_AUTH))])
              && (r.session.state == ClientAuth ==> r.writes == [AcceptAuthMethod(Some(PASSWORD))])
              && (r.session.state == Close ==> r.writes == [AcceptAuthMethod(None)])
              && r.session.state in {ClientRequest, ClientAuth, Close}
  {
    if |c| == 0 then StepOut(s, [], false, Fail(RANGE_ERROR))
    else if c[0] != VER then StepOut(s.(state := Close), [REJECT], true, Fail(UPGRADE_FAILED))
    else if |c| < 2 || 2 + c[1] > |c| then StepOut(s, [], false, Fail(RANGE_ERROR))
    else
      var known := KnownMethods(Offered(c));
      var methods := s.authMethods + known;
      KnownMethodsMembership(Offered(c), NO_AUTH);
      KnownMethodsMembership(Offered(c), PASSWORD);
      if cfg.noAuth && NO_AUTH in known then
        StepOut(Session(ClientRequest, methods), [AcceptAuthMethod(Some(NO_AUTH))], false, Continue)
      else if cfg.validator.Some? && PASSWORD in known then
        StepOut(Session(ClientAuth, methods), [AcceptAuthMethod(Some(PASSWORD))], false, Continue)
      else
        StepOut(Session(Close, methods), [AcceptAuthMethod(None)], false, Continue)
  }

  /** The ClientAuth step: skip the check under `noAuth`, otherwise parse
      the credentials and write the validator's verdict. */
  function Authenticate(cfg: Config, s: Session, c: seq<byte>): (r: StepOut)
    requires s.state == ClientAuth
    ensures !r.closedWriter
    ensures cfg.noAuth ==>
              r.writes == [AuthGranted(true)] && r.session == s.(state := ClientRequest) && r.outcome == Continue
    ensures !cfg.noAuth && cfg.validator.Some? && PASSWORD in s.authMethods ==>
              match ParseAuthPassword(c)
              case Err(e) => r.writes == [] && r.outcome == Fail(e)
              case Ok(cred) =>
                var granted := cfg.validator.value(cred);
                && r.writes == [AuthGranted(granted)] && r.outcome == Continue
                && r.session == s.(state := if granted then ClientRequest else Close)
    ensures !cfg.noAuth && !(cfg.validator.Some? && PASSWORD in s.authMethods) ==>
              r == StepOut(s, [], false, Continue)
  {
    if cfg.noAuth then StepOut(s.(state := ClientRequest), [AuthGranted(true)], false, Continue)
    else if cfg.validator.Some? && PASSWORD in s.authMethods then
      match ParseAuthPassword(c)
      case Err(e) => StepOut(s, [], false, Fail(e))
      case Ok(cred) =>
        var granted := cfg.validator.value(cred);
        StepOut(s.(state := if granted then ClientRequest else Close), [AuthGranted(granted)], false, Continue)
    else StepOut(s, [], false, Continue)
  }

  /** `VER CMD RSV` of a CONNECT request. */
  predicate HeaderOk(c: seq<byte>) {
    3 <= |c| && c[0] == VER && c[1] == CMD_CONNECT && c[2] == RSV
  }

  /** The first of the three header checks that fails: a missing octet is a
      `RangeError` with no reply, a wrong one is rejected with `REJECT`. */
  predicate HeaderRejected(c: seq<byte>) {
    || (1 <= |c| && c[0] != VER)
    || (2 <= |c| && c[0] == VER && c[1] != CMD_CONNECT)
    || (3 <= |c| && c[0] == VER && c[1] == CMD_CONNECT && c[2] != RSV)
  }

  /** The peer the restrict-local policy refuses. */
  predicate Restricted(cfg: Config, peerHost: string) {
    cfg.restrictLocal && IsLocalPeer(peerHost)
  }

  /** The success reply: ATYP IPv4 with the bound address and port. */
  function SuccessReply(bnd: Bound): seq<byte> {
    AcceptConn(Success(ATYP_IPV4, bnd.addr, bnd.port))
  }

  /** The ClientRequest step: check the header, decode the destination,
      and act on the dial result. */
  function Request(cfg: Config, bnd: Bound, s: Session, c: seq<byte>, dial: DialResult): (r: StepOut)
    requires s.state == ClientRequest
    ensures HeaderRejected(c) ==>
              r.writes == [REJECT] && r.closedWriter && r.outcome == Fail(UPGRADE_FAILED)
    ensures !HeaderOk(c) && !HeaderRejected(c) ==>
              r.writes == [] && !r.closedWriter && r.outcome == Fail(RANGE_ERROR)
    ensures HeaderOk(c) && DecodeAddress(c, 3).Err? ==>
              r.writes == [] && !r.closedWriter && r.outcome == Fail(DecodeAddress(c, 3).error)
    ensures HeaderOk(c) && DecodeAddress(c, 3).Ok? ==>
              !r.closedWriter &&
              match dial
              case DialFailed =>
                r.writes == [AcceptConn(Failure(HostUnreachable))] && r.session.state == Close && r.outcome == Continue
              case Dialed(peer) =>
                if Restricted(cfg, peer) then
                  && r.writes == [AcceptConn(Failure(NotAllowedByRuleset)), AcceptConn(Failure(HostUnreachable))]
                  && r.session.state == Close && r.outcome == Continue
                else
                  && r.writes == [SuccessReply(bnd)]
                  && r.session.state == Open && r.outcome == Done(DecodeAddress(c, 3).value, peer)
    ensures r.outcome.Done? <==>
              HeaderOk(c) && DecodeAddress(c, 3).Ok? && dial.Dialed? && !Restricted(cfg, dial.peerHost)
  {
    if |c| < 1 then StepOut(s, [], false, Fail(RANGE_ERROR))
    else if c[0] != VER then StepOut(s.(state := Close), [REJECT], true, Fail(UPGRADE_FAILED))
    else if |c| < 2 then StepOut(s, [], false, Fail(RANGE_ERROR))
    else if c[1] != CMD_CONNECT then StepOut(s.(state := Close), [REJECT], true, Fail(UPGRADE_FAILED))
    else if |c| < 3 then StepOut(s, [], false, Fail(RANGE_ERROR))
    else if c[2] != RSV then StepOut(s.(state := Close), [REJECT], true, Fail(UPGRADE_FAILED))
    else
      match DecodeAddress(c, 3)
      // the parser throws; nothing around the call catches it
      case Err(e) => StepOut(s, [], false, Fail(e))
      case Ok(addr) =>
        match dial
        case DialFailed =>
          // the catch clause
          StepOut(s.(state := Close), [AcceptConn(Failure(HostUnreachable))], false, Continue)
        case Dialed(peer) =>
          if Restricted(cfg, peer) then
            // the ruleset reply, then the throw lands in the same catch clause
            StepOut(s.(state := Close),
                    [AcceptConn(Failure(NotAllowedByRuleset)), AcceptConn(Failure(HostUnreachable))],
                    false, Continue)
          else
            StepOut(s.(state := Open), [SuccessReply(bnd)], false, Done(addr, peer))
  }

  /** One iteration of the loop in a negotiation state. */
  function Step(cfg: Config, bnd: Bound, s: Session, input: Input): (r: StepOut)
    requires s.state != Close && s.state != Open
    ensures r.outcome == Continue ==> r.session.state != Open
    ensures r.outcome.Done? ==> r.session.state == Open && |r.writes| > 0 && r.writes[|r.writes| - 1] == SuccessReply(bnd)
  {
    match s.state
    case ClientHello => Greet(cfg, s, input.chunk)
    case ClientAuth => Authenticate(cfg, s, input.chunk)
    case ClientRequest => Request(cfg, bnd, s, input.chunk, input.dial)
  }

  // ---------------------------------------------------------------------
  // The loop

  /** How `upgradeSocks5` settles: it returns the handoff or throws. */
  datatype Result5 = Handoff(addr: Address, peerHost: string) | Thrown(reason: string)

  datatype RunOut = RunOut(writes: seq<seq<byte>>, closedWriter: bool, result: Result5)

  /** The `for await` loop over the remaining chunks: a Close state breaks
      it, and leaving it without returning throws 'SOCKS5 Upgrade failed'. */
  function Run(cfg: Config, bnd: Bound, s: Session, inputs: seq<Input>): (r: RunOut)
    requires s.state != Open
    decreases |inputs|
  {
    if s.state == Close || |inputs| == 0 then RunOut([], false, Thrown(UPGRADE_FAILED))
    else
      var o := Step(cfg, bnd, s, inputs[0]);
      match o.outcome
      case Fail(e) => RunOut(o.writes, o.closedWriter, Thrown(e))
      case Done(a, peer) => RunOut(o.writes, o.closedWriter, Handoff(a, peer))
      case Continue =>
        var rest := Run(cfg, bnd, o.session, inputs[1..]);
        RunOut(o.writes + rest.writes, o.closedWriter || rest.closedWriter, rest.result)
  }

  /** `upgradeSocks5(conn, bnd, options)` over the chunks the client sends. */
  function Upgrade(o: Options, bnd: Bound, inputs: seq<Input>): RunOut
  {
    Run(Configure(o), bnd, Session(ClientHello, []), inputs)
  }

  // ---------------------------------------------------------------------
  // Properties of the loop

  /** The function returns only after writing the success reply, which is
      its last write; every other exit throws. */
  lemma {:induction false} HandoffAfterSuccess(cfg: Config, bnd: Bound, s: Session, inputs: seq<Input>)
    requires s.state != Open
    ensures Run(cfg, bnd, s, inputs).result.Handoff? ==>
              var w := Run(cfg, bnd, s, inputs).writes;
              |w| > 0 && w[|w| - 1] == SuccessReply(bnd)
    decreases |inputs|
  {
    var r := Run(cfg, bnd, s, inputs);
    if s.state != Close && |inputs| > 0 {
      var o := Step(cfg, bnd, s, inputs[0]);
      match o.outcome
      case Fail(e) =>
        assert r.result == Thrown(e);
      case Done(a, peer) =>
        assert r.writes == o.writes;
        assert r.writes[|r.writes| - 1] == SuccessReply(bnd);
      case Continue =>
        HandoffAfterSuccess(cfg, bnd, o.session, inputs[1..]);
        var rest := Run(cfg, bnd, o.session, inputs[1..]);
        assert r.writes == o.writes + rest.writes && r.result == rest.result;
        if rest.result.Handoff? {
          LastOfConcat(o.writes, rest.writes);
          assert r.writes[|r.writes| - 1] == SuccessReply(bnd);
        }
    } else {
      assert r.result == Thrown(UPGRADE_FAILED);
    }
  }

  /** Once the state is Close nothing more is written and the call throws,
      whatever the client still sends. */
  lemma ClosedStaysSilent(cfg: Config, bnd: Bound, authMethods: seq<byte>, inputs: seq<Input>)
    ensures Run(cfg, bnd, Session(Close, authMethods), inputs) == RunOut([], false, Thrown(UPGRADE_FAILED))
  {
  }

  /** A stream that ends during the negotiation makes the call throw. */
  lemma {:induction false} ShortStreamThrows(cfg: Config, bnd: Bound, s: Session, inputs: seq<Input>)
    requires s.state != Open
    requires forall i :: 0 <= i < |inputs| ==> inputs[i].dial == DialFailed
    ensures Run(cfg, bnd, s, inputs).result.Thrown?
    decreases |inputs|
  {
    if s.state != Close && |inputs| > 0 {
      var o := Step(cfg, bnd, s, inputs[0]);
      if o.outcome == Continue {
        ShortStreamThrows(cfg, bnd, o.session, inputs[1..]);
      }
    }
  }

  // ---------------------------------------------------------------------
  // Whole negotiations

  /** The greeting `VER NMETHODS METHODS` a client sends. */
  function Greeting(methods: seq<byte>): seq<byte>
    requires |methods| < 256
  {
    [VER, |methods|] + methods
  }

  /** A CONNECT request for a destination. */
  function ConnectRequest(d: Destination): seq<byte>
    requires ValidDestination(d)
  {
    [VER, CMD_CONNECT, RSV] + EncodeDestination(d)
  }

  lemma GreetingOffers(methods: seq<byte>)
    requires |methods| < 256
    ensures CompleteGreeting(Greeting(methods)) && Offered(Greeting(methods)) == methods
  {
    assert Greeting(methods)[2..2 + |methods|] == methods;
  }

  lemma ConnectRequestDecodes(d: Destination)
    requires ValidDestination(d)
    ensures HeaderOk(ConnectRequest(d)) && DecodeAddress(ConnectRequest(d), 3) == Ok(Denoted(d))
  {
    DecodeEncoded([VER, CMD_CONNECT, RSV], d);
    assert ConnectRequest(d) == [VER, CMD_CONNECT, RSV] + EncodeDestination(d);
  }

  /** Without a validator, a client offering no-authentication is accepted,
      and a dial to a non-local peer hands the connection over after the
      two replies `[5,0]` and the success reply. */
  lemma NoAuthConnect(bnd: Bound, d: Destination, peer: string, rest: seq<Input>)
    requires ValidDestination(d) && !IsLocalPeer(peer)
    ensures Upgrade(Options(None, None, None), bnd,
                    [Input(Greeting([NO_AUTH]), DialFailed), Input(ConnectRequest(d), Dialed(peer))] + rest)
         == RunOut([[VER, NO_AUTH], SuccessReply(bnd)], false, Handoff(Denoted(d), peer))
  {
    var inputs := [Input(Greeting([NO_AUTH]), DialFailed), Input(ConnectRequest(d), Dialed(peer))] + rest;
    GreetingOffers([NO_AUTH]);
    ConnectRequestDecodes(d);
    var cfg := Configure(Options(None, None, None));
    var s1 := Session(ClientRequest, [NO_AUTH]);
    assert Step(cfg, bnd, Session(ClientHello, []), inputs[0])
        == StepOut(s1, [[VER, NO_AUTH]], false, Continue);
    assert inputs[1..][0] == inputs[1];
    assert Run(cfg, bnd, s1, inputs[1..]) == RunOut([SuccessReply(bnd)], false, Handoff(Denoted(d), peer));
  }

  /** With a validator and `noAuth` left to its default, a client offering
      only no-authentication is refused with `[5,0xFF]` and the call throws. */
  lemma NoAuthRefusedWhenValidatorSet(validator: Credentials -> bool, bnd: Bound, rest: seq<Input>)
    ensures Upgrade(Options(None, Some(validator), None), bnd, [Input(Greeting([NO_AUTH]), DialFailed)] + rest)
         == RunOut([[VER, NO_ACCEPTABLE]], false, Thrown(UPGRADE_FAILED))
  {
    var inputs := [Input(Greeting([NO_AUTH]), DialFailed)] + rest;
    GreetingOffers([NO_AUTH]);
    var cfg := Configure(Options(None, Some(validator), None));
    var s1 := Session(Close, [NO_AUTH]);
    assert Step(cfg, bnd, Session(ClientHello, []), inputs[0])
        == StepOut(s1, [[VER, NO_ACCEPTABLE]], false, Continue);
    assert Run(cfg, bnd, s1, inputs[1..]) == RunOut([], false, Thrown(UPGRADE_FAILED));
  }

  /** The password path: `[5,2]`, then the verdict on the parsed
      credentials; a granted client is handed over after the success reply,
      a refused one gets `[1,1]` and the call throws. */
  lemma PasswordConnect(validator: Credentials -> bool, bnd: Bound, user: seq<byte>, pass: seq<byte>,
                        d: Destination, peer: string, rest: seq<Input>)
    requires |user| < 256 && |pass| < 256 && ValidDestination(d) && !IsLocalPeer(peer)
    ensures (var inputs := [Input(Greeting([PASSWORD]), DialFailed),
                            Input(EncodeAuthRequest(user, pass), DialFailed),
                            Input(ConnectRequest(d), Dialed(peer))] + rest;
             var granted := validator(Credentials(DecodeAscii(user), DecodeAscii(pass)));
             Upgrade(Options(None, Some(validator), None), bnd, inputs)
             == if granted then
                  RunOut([[VER, PASSWORD], [0x01, 0x00], SuccessReply(bnd)], false, Handoff(Denoted(d), peer))
                else
                  RunOut([[VER, PASSWORD], [0x01, 0x01]], false, Thrown(UPGRADE_FAILED)))
  {
    var i0 := Input(Greeting([PASSWORD]), DialFailed);
    var i1 := Input(EncodeAuthRequest(user, pass), DialFailed);
    var i2 := Input(ConnectRequest(d), Dialed(peer));
    var granted := validator(Credentials(DecodeAscii(user), DecodeAscii(pass)));
    var cfg := Configure(Options(None, Some(validator), None));
    var s2 := Session(if granted then ClientRequest else Close, [PASSWORD]);
    assert [i0, i1, i2] + rest == [i0, i1] + ([i2] + rest);
    PasswordGreetingStep(validator, bnd);
    PasswordAuthStep(validator, bnd, user, pass);
    TwoContinues(cfg, bnd, Session(ClientHello, []), i0, i1, [i2] + rest, Session(ClientAuth, [PASSWORD]),
                 [[VER, PASSWORD]], s2, [AuthGranted(granted)]);
    if granted {
      RequestGranted(cfg, bnd, [PASSWORD], d, peer, rest);
      assert [[VER, PASSWORD]] + [AuthGranted(granted)] + [SuccessReply(bnd)]
          == [[VER, PASSWORD], [0x01, 0x00], SuccessReply(bnd)];
    } else {
      assert [[VER, PASSWORD]] + [AuthGranted(granted)] + [] == [[VER, PASSWORD], [0x01, 0x01]];
    }
  }

  /** Two steps that continue without closing the writer put their writes
      in front of the rest of the run. */
  lemma TwoContinues(cfg: Config, bnd: Bound, s0: Session, i0: Input, i1: Input, rest: seq<Input>,
                     s1: Session, w0: seq<seq<byte>>, s2: Session, w1: seq<seq<byte>>)
    requires s0.state != Open && s0.state != Close && s1.state != Open && s1.state != Close && s2.state != Open
    requires Step(cfg, bnd, s0, i0) == StepOut(s1, w0, false, Continue)
    requires Step(cfg, bnd, s1, i1) == StepOut(s2, w1, false, Continue)
    ensures Run(cfg, bnd, s0, [i0, i1] + rest)
         == RunOut(w0 + w1 + Run(cfg, bnd, s2, rest).writes, Run(cfg, bnd, s2, rest).closedWriter,
                   Run(cfg, bnd, s2, rest).result)
  {
    assert [i0, i1] + rest == [i0] + ([i1] + rest);
    RunContinue(cfg, bnd, s0, i0, [i1] + rest, s1, w0);
    RunContinue(cfg, bnd, s1, i1, rest, s2, w1);
    assert w0 + (w1 + Run(cfg, bnd, s2, rest).writes) == w0 + w1 + Run(cfg, bnd, s2, rest).writes;
  }

  /** A session awaiting the request, a request that decodes and a dial to
      a permitted peer: the success reply, then the handoff. */
  lemma RequestGranted(cfg: Config, bnd: Bound, authMethods: seq<byte>, d: Destination, peer: string,
                       rest: seq<Input>)
    requires ValidDestination(d) && !(IsLocalPeer(peer) && cfg.restrictLocal)
    ensures Run(cfg, bnd, Session(ClientRequest, authMethods), [Input(ConnectRequest(d), Dialed(peer))] + rest)
         == RunOut([SuccessReply(bnd)], false, Handoff(Denoted(d), peer))
  {
    ConnectRequestDecodes(d);
    assert ([Input(ConnectRequest(d), Dialed(peer))] + rest)[0] == Input(ConnectRequest(d), Dialed(peer));
  }

  /** With a validator, a greeting offering the password method selects it. */
  lemma PasswordGreetingStep(validator: Credentials -> bool, bnd: Bound)
    ensures Step(Configure(Options(None, Some(validator), None)), bnd, Session(ClientHello, []),
                 Input(Greeting([PASSWORD]), DialFailed))
         == StepOut(Session(ClientAuth, [PASSWORD]), [[VER, PASSWORD]], false, Continue)
  {
    GreetingOffers([PASSWORD]);
  }

  /** The sub-negotiation hands the decoded credentials to the validator and
      answers its verdict. */
  lemma PasswordAuthStep(validator: Credentials -> bool, bnd: Bound, user: seq<byte>, pass: seq<byte>)
    requires |user| < 256 && |pass| < 256
    ensures (var granted := validator(Credentials(DecodeAscii(user), DecodeAscii(pass)));
             Step(Configure(Options(None, Some(validator), None)), bnd, Session(ClientAuth, [PASSWORD]),
                  Input(EncodeAuthRequest(user, pass), DialFailed))
             == StepOut(Session(if granted then ClientRequest else Close, [PASSWORD]), [AuthGranted(granted)],
                        false, Continue))
  {
    AuthRoundTrip(user, pass);
  }

  /** A step that continues without closing the writer puts its writes in
      front of the rest of the run. */
  lemma RunContinue(cfg: Config, bnd: Bound, s: Session, i: Input, rest: seq<Input>, s': Session, w: seq<seq<byte>>)
    requires s.state != Open && s.state != Close && s'.state != Open
    requires Step(cfg, bnd, s, i) == StepOut(s', w, false, Continue)
    ensures Run(cfg, bnd, s, [i] + rest)
         == RunOut(w + Run(cfg, bnd, s', rest).writes, Run(cfg, bnd, s', rest).closedWriter,
                   Run(cfg, bnd, s', rest).result)
  {
    assert ([i] + rest)[0] == i && ([i] + rest)[1..] == rest;
  }

  /** With `noAuth` set alongside a validator, a client that offers only the
      password method is granted `[1,0]` whatever it sends: the validator is
      never consulted. */
  lemma NoAuthSkipsValidator(validator: Credentials -> bool, bnd: Bound, anything: seq<byte>, d: Destination,
                             peer: string)
    requires ValidDestination(d) && !IsLocalPeer(peer)
    ensures Upgrade(Options(None, Some(validator), Some(true)), bnd,
                    [Input(Greeting([PASSWORD]), DialFailed), Input(anything, DialFailed),
                     Input(ConnectRequest(d), Dialed(peer))])
         == RunOut([[VER, PASSWORD], [0x01, 0x00], SuccessReply(bnd)], false, Handoff(Denoted(d), peer))
  {
    var inputs := [Input(Greeting([PASSWORD]), DialFailed), Input(anything, DialFailed),
                   Input(ConnectRequest(d), Dialed(peer))];
    GreetingOffers([PASSWORD]);
    ConnectRequestDecodes(d);
    var cfg := Configure(Options(None, Some(validator), Some(true)));
    var s1 := Session(ClientAuth, [PASSWORD]);
    assert Step(cfg, bnd, Session(ClientHello, []), inputs[0])
        == StepOut(s1, [[VER, PASSWORD]], false, Continue);
    var s2 := Session(ClientRequest, [PASSWORD]);
    assert Step(cfg, bnd, s1, inputs[1]) == StepOut(s2, [[0x01, 0x00]], false, Continue);
    var in1 := inputs[1..];
    assert in1[0] == inputs[1];
    assert in1[1..] == [inputs[2]];
    assert Run(cfg, bnd, s2, [inputs[2]]) == RunOut([SuccessReply(bnd)], false, Handoff(Denoted(d), peer));
    assert Run(cfg, bnd, s1, in1) == RunOut([[0x01, 0x00], SuccessReply(bnd)], false, Handoff(Denoted(d), peer));
  }

  /** The common prefix of the scenarios below: a no-authentication
      greeting under the default options, then a CONNECT request. */
  lemma AfterNoAuthGreeting(o: Options, bnd: Bound, d: Destination, dial: DialResult, rest: seq<Input>)
    requires ValidDestination(d) && o.validator.None? && o.noAuth.None?
    ensures (var inputs := [Input(Greeting([NO_AUTH]), DialFailed), Input(ConnectRequest(d), dial)] + rest;
             var cfg := Configure(o);
             var s1 := Session(ClientRequest, [NO_AUTH]);
             var o1 := Step(cfg, bnd, s1, inputs[1]);
             && o1.outcome == Continue
             ==> Upgrade(o, bnd, inputs)
                 == RunOut([[VER, NO_AUTH]] + o1.writes, o1.closedWriter, Run(cfg, bnd, o1.session, rest).result)
                 && Run(cfg, bnd, o1.session, rest).writes == [])
  {
    var inputs := [Input(Greeting([NO_AUTH]), DialFailed), Input(ConnectRequest(d), dial)] + rest;
    GreetingOffers([NO_AUTH]);
    var cfg := Configure(o);
    var s1 := Session(ClientRequest, [NO_AUTH]);
    assert Step(cfg, bnd, Session(ClientHello, []), inputs[0])
        == StepOut(s1, [[VER, NO_AUTH]], false, Continue);
    var in1 := inputs[1..];
    assert in1[0] == inputs[1];
    assert in1[1..] == rest;
    var o1 := Step(cfg, bnd, s1, inputs[1]);
    if o1.outcome == Continue {
      ConnectRequestDecodes(d);
      assert o1.session.state == Close;
      var tail := Run(cfg, bnd, o1.session, rest);
      assert tail == RunOut([], false, Thrown(UPGRADE_FAILED));
      assert Run(cfg, bnd, s1, in1) == RunOut(o1.writes + tail.writes, o1.closedWriter || tail.closedWriter, tail.result);
    }
  }

  /** A restricted peer gets the ruleset reply and then, from the catch
      clause, host-unreachable; the call then throws. */
  lemma RestrictedPeer(bnd: Bound, d: Destination, peer: string, rest: seq<Input>)
    requires ValidDestination(d) && IsLocalPeer(peer)
    ensures Upgrade(Options(None, None, None), bnd,
                    [Input(Greeting([NO_AUTH]), DialFailed), Input(ConnectRequest(d), Dialed(peer))] + rest)
         == RunOut([[VER, NO_AUTH], [VER, 0x02], [VER, 0x04]], false, Thrown(UPGRADE_FAILED))
  {
    ConnectRequestDecodes(d);
    AfterNoAuthGreeting(Options(None, None, None), bnd, d, Dialed(peer), rest);
  }

  /** Turning the policy off lets the same local peer through. */
  lemma UnrestrictedLocalPeer(bnd: Bound, d: Destination, peer: string, rest: seq<Input>)
    requires ValidDestination(d)
    ensures Upgrade(Options(Some(false), None, None), bnd,
                    [Input(Greeting([NO_AUTH]), DialFailed), Input(ConnectRequest(d), Dialed(peer))] + rest)
         == RunOut([[VER, NO_AUTH], SuccessReply(bnd)], false, Handoff(Denoted(d), peer))
  {
    var inputs := [Input(Greeting([NO_AUTH]), DialFailed), Input(ConnectRequest(d), Dialed(peer))] + rest;
    GreetingOffers([NO_AUTH]);
    ConnectRequestDecodes(d);
    var cfg := Configure(Options(Some(false), None, None));
    var s1 := Session(ClientRequest, [NO_AUTH]);
    assert Step(cfg, bnd, Session(ClientHello, []), inputs[0])
        == StepOut(s1, [[VER, NO_AUTH]], false, Continue);
    assert inputs[1..][0] == inputs[1];
    assert Run(cfg, bnd, s1, inputs[1..]) == RunOut([SuccessReply(bnd)], false, Handoff(Denoted(d), peer));
  }

  /** A failed dial is answered host-unreachable and the call throws. */
  lemma DialFailure(bnd: Bound, d: Destination, rest: seq<Input>)
    requires ValidDestination(d)
    ensures Upgrade(Options(None, None, None), bnd,
                    [Input(Greeting([NO_AUTH]), DialFailed), Input(ConnectRequest(d), DialFailed)] + rest)
         == RunOut([[VER, NO_AUTH], [VER, 0x04]], false, Thrown(UPGRADE_FAILED))
  {
    ConnectRequestDecodes(d);
    AfterNoAuthGreeting(Options(None, None, None), bnd, d, DialFailed, rest);
  }
}
