# protocols — a verified model of its wire codecs and state machines

This Dafny project models the protocol cores of the Deno/TypeScript
repository `protocols`. It covers four areas.

- **SOCKS5 server** (RFC 1928 and RFC 1929):
  - the production engine `upgradeSocks5` (socks/socks5.ts);
  - the two drafts `acceptSocks5` (socks/socks5-proto.ts and socks/socks5-proto2.ts);
  - the experimental handler of socks/test2.ts;
  - the helpers of socks/utils.ts.
- **WebSocket framing** (RFC 6455):
  - the two `readFrame` decoders (websocket/ws-utils.ts, websocket/ws.ts);
  - `readFrameHeader`, `unmask` and `sendMessage`;
  - the deframing `TransformStream` of `handleWebSocketStream`.
- **STUN** (RFC 5389): the Binding request of `#createMessage`, the
  attribute walk of `#parseAttr`, and `getMappedAddress` (stun/stun.ts).
- **UPnP**:
  - the local-interface filter (upnp/os.ts);
  - SSDP `M-SEARCH` construction and response parsing (upnp/ssdp.ts);
  - the IGD device-tree flattening, service selection and `SOAPAction` header (upnp/igd.ts).

Everything is pure. A TCP stream is a sequence of chunks, and every chunk
carries the outcome of the dial the step would make. What a step writes
comes back as a sequence of packets, together with whether it closed the
writer. A thrown exception is a `Result` error or an outcome that carries
the message the code throws (`"RangeError"` for a `DataView` read past
the end, `"TypeError"` for a property read on `undefined`). JavaScript's
typed-array rules are written out:

- `Uint8Array.at` past the end reads `undefined`, and 0 in a bitwise context (`Bytes.At`);
- `subarray` clamps its bounds (`Bytes.Sub`);
- `new Uint8Array(buffer, offset)` and `new DataView(buffer, offset)` read
  from the underlying buffer, not from the view the code holds. Several of
  the bugs below come from this.

| file | module | models |
|---|---|---|
| wrappers.dfy | Wrappers | `Option` / `Result` |
| bytes.dfy | Bytes | octets, big-endian values, `at`, `subarray`, XOR |
| text.dfy | Text | `split`, `join`, decimal and hex text, ASCII `TextEncoder`/`TextDecoder`, `toLowerCase` |
| socks_wire.dfy | Socks5Wire | socks/enum.ts and the reply builders of socks/socks5.ts |
| socks_auth.dfy | Socks5Auth | `parseAuthPassword` and `isLocalAddr` of socks/utils.ts |
| socks_addr.dfy | Socks5Addr | the SOCKS5 address codec (`parseSocks5Addr`) |
| socks_engine.dfy | Socks5Engine | `upgradeSocks5` |
| socks_proto.dfy | Socks5Proto | `acceptSocks5` and `parseSocks5Addr` of socks/socks5-proto.ts |
| socks_proto2.dfy | Socks5Proto2 | `acceptSocks5` and `parseSocks5Addr` of socks/socks5-proto2.ts |
| socks_test2.dfy | Socks5Test2 | the connection handler of socks/test2.ts |
| ws_frame.dfy | WsFrame | `readFrame`, `readFrameHeader`, `unmask`, and a frame encoder as their partner |
| ws_stream.dfy | WsStream | the deframer of `handleWebSocketStream` |
| ws_send.dfy | WsSend | `sendMessage` |
| stun.dfy | Stun | the Binding request, the attribute walk, `getMappedAddress` |
| upnp_os.dfy | UpnpOs | `isLocalAddr`, `ints` |
| ssdp.dfy | Ssdp | the `SSDP` constructor, `search` message, `#parseResponse` |
| igd.dfy | Igd | `#parseDevice`, `getService`, the `SOAPAction` value |

Notes on the code:

- **The address parser of socks/socks5.ts.** socks/socks5.ts imports
  `parseSocks5Addr` from socks/utils.ts, but the version of socks/utils.ts
  this model follows (31 lines) defines no such function, so that parser
  is not part of this model.
  `Socks5Addr.DecodeAddress` is reconstructed from two sources:
  - the three vectors of socks/utils.test.ts;
  - the draft parser of socks/socks5-proto2.ts:55-87, with its offsets
    read as evidently intended.

  The IPv6 hostname is eight four-digit groups joined by `:`, as the test
  vector expects. The draft of socks5-proto2.ts renders sixteen two-digit
  parts instead; `Socks5Proto2.ParseAddr` keeps that rendering.
- **The local-peer check.** `isLocalAddr` (socks/utils.ts:16-19) takes a
  connection and reads `conn.remoteAddr.hostname`. The model takes the
  hostname directly (`Socks5Auth.IsLocalPeer`).
- **Replies of `upgradeSocks5` that follow the code:**
  - a wrong version octet or command answers `[5, 7]` (`CommandNotSupported`, socks/socks5.ts:76-82, 128-141);
  - a restricted local peer gets `[5, 2]` and then `[5, 4]`, because
    execution falls through into the `catch` of socks/socks5.ts:192-198;
  - in the `ClientAuth` state, if neither `noAuth` nor a password
    validator with method 0x02 applies, nothing is written and the state
    stays as it was.
- **IPv6 in socks/socks5-proto.ts.** An IPv6 request releases the writer
  and then calls `close()` on it (socks/socks5-proto.ts:226-232). This
  throws a `TypeError`.

## Model

| member | source | states |
|---|---|---|
| Bytes.BeValueOfBeBytes | stun/stun.ts:61-66 | writing a value below 256^w as w big-endian octets and reading them back gives the value |
| Bytes.BeBytesOfBeValue | websocket/ws-utils.ts:86-96 | reading w octets as a big-endian value and writing it back gives the same octets |
| Bytes.U16OfBeBytes | socks/socks5-proto2.ts:188 | the two octets `(port >> 8) & 0xff, port & 0xff` read back with `getUint16` give the port |
| Bytes.XorTwice | websocket/ws-utils.ts:65-69 | XOR with the same key octet twice restores the octet |
| Text.JoinSplit | upnp/ssdp.ts:74 | joining the pieces of `split(sep)` with `sep` restores the string |
| Text.SplitJoin | upnp/ssdp.ts:36-44 | splitting a join of pieces that do not contain the separator recovers the pieces |
| Text.DecimalRoundTrip | upnp/ssdp.ts:38-40 | a number's decimal text reads back as the number |
| Text.Hex2RoundTrip | socks/socks5-proto2.ts:65-76 | the two-digit hex text of an octet reads back as the octet |
| Text.AsciiRoundTrip | socks/utils.ts:11-12 | decoding octets as one character each and encoding them again gives the octets back |
| Text.ToLowerIdempotent | upnp/ssdp.ts:86 | lower-casing twice is lower-casing once |
| Text.DottedQuadRoundTrip | socks/socks5-proto2.ts:59-64 | the dotted-decimal text of four octets parses back to those octets |
| Socks5Wire.ReplyCode | socks/enum.ts:23-33 | reply codes are at most 0x08, and only `Succeeded` is 0x00 |
| Socks5Wire.ReplyCodeInjective | socks/enum.ts:23-33 | every reply is recovered from its code, so no two replies share one |
| Socks5Wire.AcceptAuthMethod | socks/socks5.ts:15 | the method-selection reply is `[5, method]`, and 0xFF when no method is given |
| Socks5Wire.AuthMethodRoundTrip | socks/socks5.ts:15 | a client reads back the offered method from the reply, and 0xFF for the default |
| Socks5Wire.AuthGranted | socks/socks5.ts:17 | the sub-negotiation reply is `[1, 0]` exactly when access is granted |
| Socks5Wire.AcceptConn | socks/socks5.ts:19-43 | a failure reply is `[5, code]` with a nonzero code; a success reply is VER, 0, RSV, ATYP, the bound address and the bound port in that order |
| Socks5Wire.ConnReplyRoundTrip | socks/socks5.ts:19-43 | a client parses every reply built by `acceptConn` back into the same reply |
| Socks5Auth.ParseAuthPassword | socks/utils.ts:3-14 | the request parses exactly when the username length, the username, the password length and the password fit in the buffer; otherwise it throws `RangeError` |
| Socks5Auth.EncodeAuthRequest | socks/socks5-proto.ts:69-77 | the client request is 3 octets plus the username and the password |
| Socks5Auth.AuthRoundTrip | socks/utils.ts:3-14 | parsing an encoded request gives back the username and the password |
| Socks5Auth.AuthTrailingIgnored | socks/utils.ts:4-9 | octets after the password do not change the parsed credentials |
| Socks5Auth.AuthVersionIgnored | socks/utils.ts:3-14 | the sub-negotiation version octet is never checked |
| Socks5Auth.AuthTruncated | socks/utils.ts:4-9 | every proper prefix of an encoded request throws `RangeError` |
| Socks5Auth.VectorTestTest | socks/utils.ts:3-14 | `[1, 4, "test", 4, "test"]` parses as test/test |
| Socks5Auth.LocalPeerExamples | socks/utils.ts:16-19 | 192.168.x and anything starting with 127.0.0.1 (127.0.0.10 too) are local; 127.0.0.2, 10.x, 172.16.x and ::1 are not |
| Socks5Auth.LocalPeerPrefixClosed | socks/utils.ts:17-18 | the check is a prefix test: extending a local hostname keeps it local |
| Socks5Addr.HexGroups | socks/utils.test.ts:19-33 | an even number of octets gives one group per two octets |
| Socks5Addr.HexGroupsDigits | socks/utils.test.ts:19-33 | every group is four hex digits |
| Socks5Addr.HexGroupsRoundTrip | socks/utils.test.ts:19-33 | the groups parse back to the octets they came from |
| Socks5Addr.Ipv6TextRoundTrip | socks/utils.test.ts:19-33 | the IPv6 text of sixteen octets parses back to those octets |
| Socks5Addr.DecodeAddress | socks/socks5-proto2.ts:55-87 | an unknown ATYP fails with "Invalid ADDR type" and nothing else does; a decoded address has the ATYP of its kind, lies inside the buffer and has a 16-bit port |
| Socks5Addr.DecodeEncoded | socks/socks5-proto2.ts:59-84 | decoding an encoded IPv4, IPv6 or domain destination after a 3-octet header gives its address text and port |
| Socks5Addr.DecodeIsLossless | socks/socks5-proto2.ts:59-76 | for IPv4 and IPv6 the decoded hostname parses back to the destination's octets, and the port is kept |
| Socks5Addr.VectorIpv4 | socks/utils.test.ts:7-17 | `05 01 00 01 7f 00 00 01 03 55` decodes to 127.0.0.1 port 853 |
| Socks5Addr.VectorIpv6 | socks/utils.test.ts:19-33 | the loopback IPv6 request decodes to 0000:…:0001 port 853 |
| Socks5Addr.VectorDomain | socks/utils.test.ts:35-51 | the one.one.one.one request decodes to that name and port 853 |
| Socks5Addr.V6Request | socks/utils.test.ts:22-29 | any IPv6 request decodes to the text of its sixteen octets and its port |
| Socks5Addr.DomainRequest | socks/utils.test.ts:38-48 | any domain request with a name below 256 ASCII characters decodes to that name and port |
| Socks5Addr.LoopbackV4Text | socks/utils.test.ts:14 | 7f 00 00 01 renders as "127.0.0.1" |
| Socks5Addr.LoopbackV6Text | socks/utils.test.ts:21 | the IPv6 loopback renders as "0000:0000:0000:0000:0000:0000:0000:0001" |
| Socks5Engine.Configure | socks/socks5.ts:60-62 | `restrictLocal` is on unless explicitly false; `noAuth` is on when set, or when unset and no password validator is given |
| Socks5Engine.KnownMethodsMembership | socks/socks5.ts:84-89 | a method is recorded exactly when the client offered it and it is NoAuth or Password |
| Socks5Engine.KnownMethodsAppend | socks/socks5.ts:84-89 | recording is per method, in offer order, so it distributes over concatenation |
| Socks5Engine.Greet | socks/socks5.ts:73-105 | empty chunk: `RangeError` without writes. Wrong version: `[5,7]`, the writer closed and the upgrade failed. Short greeting: `RangeError`. A complete greeting records the known methods. NoAuth is chosen iff allowed and offered; otherwise Password iff a validator exists and it is offered; otherwise `[5, 0xFF]` and Close |
| Socks5Engine.Authenticate | socks/socks5.ts:106-124 | with `noAuth` the reply is `[1,0]` and the request state follows whatever was sent. With a validator and Password recorded, unparsable credentials throw, and otherwise the verdict is written and picks the request or the close state. Any other case writes nothing and changes nothing |
| Socks5Engine.Request | socks/socks5.ts:125-199 | a wrong VER/CMD/RSV gives `[5,7]`, closed and failed. A short header gives `RangeError`. An address the parser rejects throws the parser's own error (`Invalid ADDR type` or `RangeError`) and leaves the writer open. A failed dial gives `[5,4]` then Close. A restricted local peer gives `[5,2]`, `[5,4]` then Close. Otherwise the success reply is written and the connection handed off — and only then |
| Socks5Engine.Step | socks/socks5.ts:70-199 | a step that continues never opens the connection; a handoff always ends with the success reply |
| Socks5Engine.HandoffAfterSuccess | socks/socks5.ts:180-191 | over any chunk stream, the last write before a handoff is the success reply |
| Socks5Engine.ClosedStaysSilent | socks/socks5.ts:70-72 | once closed, further chunks write nothing and the upgrade ends with "SOCKS5 Upgrade failed" |
| Socks5Engine.ShortStreamThrows | socks/socks5.ts:202 | a stream in which no dial succeeds never hands off; it throws |
| Socks5Engine.GreetingOffers | socks/socks5.ts:84-89 | an encoded greeting is complete and offers exactly its methods |
| Socks5Engine.ConnectRequestDecodes | socks/socks5.ts:128-156 | an encoded CONNECT request passes the header checks and decodes to its destination |
| Socks5Engine.NoAuthConnect | socks/socks5.ts:73-191 | with default options, NoAuth then CONNECT to a non-local peer writes `[5,0]` and the success reply, then hands off |
| Socks5Engine.NoAuthRefusedWhenValidatorSet | socks/socks5.ts:62 | with a validator and `noAuth` unset, a NoAuth-only greeting gets `[5, 0xFF]` and the upgrade fails |
| Socks5Engine.PasswordConnect | socks/socks5.ts:91-191 | a greeting, credentials and CONNECT give `[5,2]`, `[1,0]` and success when the validator accepts, and `[5,2]`, `[1,1]` then failure when it refuses |
| Socks5Engine.PasswordGreetingStep | socks/socks5.ts:91-105 | with only a validator configured, a Password greeting moves to ClientAuth with the reply `[5,2]` |
| Socks5Engine.PasswordAuthStep | socks/socks5.ts:113-124 | encoded credentials are answered with the validator's verdict, which picks ClientRequest or Close |
| Socks5Engine.RequestGranted | socks/socks5.ts:163-191 | from ClientRequest, a CONNECT to an allowed peer writes only the success reply and hands off its destination |
| Socks5Engine.NoAuthSkipsValidator | socks/socks5.ts:106-111 | with `noAuth: true` and a validator, a Password greeting is answered and any credentials chunk gets `[1,0]` without being parsed |
| Socks5Engine.AfterNoAuthGreeting | socks/socks5.ts:70-72 | after a NoAuth greeting and a request that continues, the rest of the stream writes nothing |
| Socks5Engine.RestrictedPeer | socks/socks5.ts:169-178 | a local peer under default options gets `[5,2]` and then `[5,4]`, and the upgrade fails |
| Socks5Engine.UnrestrictedLocalPeer | socks/socks5.ts:61 | with `restrictLocal: false` any peer, local or not, is handed off |
| Socks5Engine.DialFailure | socks/socks5.ts:192-198 | a failed dial writes `[5,4]`, and the upgrade fails |
| Socks5Engine.TwoContinues | socks/socks5.ts:70-72 | two continuing steps compose: their writes come first, then the run from the state they reach |
| Socks5Proto.ParseAddr | socks/socks5-proto.ts:89-112 | an unknown ATYP throws; IPv6 yields `false`; a domain name is read from absolute octet 1 and its port from octets 4+len and 5+len |
| Socks5Proto.StepProto | socks/socks5-proto.ts:192-264 | the first chunk is answered `[5,0]` whatever it holds. A request never loops. A rejected request closes silently. A handoff follows a successful dial and the grant reply. A throw writes nothing |
| Socks5Proto.RunProto | socks/socks5-proto.ts:192-264 | the loop always ends in a return or a throw |
| Socks5Proto.FirstChunkIgnored | socks/socks5-proto.ts:208-210 | the content of the greeting makes no difference to the session |
| Socks5Proto.RsvIgnored | socks/socks5-proto.ts:214-232 | the reserved octet is never checked |
| Socks5Proto.SilentRejection | socks/socks5-proto.ts:214-225 | a wrong version or command closes the writer without a reply |
| Socks5Proto.Ipv4AsCurrent | socks/socks5-proto.ts:94-99 | for IPv4 the draft parser agrees with the SOCKS5 address codec |
| Socks5Proto.Ipv6Throws | socks/socks5-proto.ts:226-232 | an IPv6 request throws `TypeError` without writing |
| Socks5Proto.DialFailureThrows | socks/socks5-proto.ts:239 | a failed dial propagates as a throw, without a reply |
| Socks5Proto.DomainMisread | socks/socks5-proto.ts:102-108 | a domain request parses, but to a hostname different from the name sent |
| Socks5Proto.DomainVector | socks/socks5-proto.ts:102-108 | the one.one.one.one request reads the name from octet 1 and port 0x6503 |
| Socks5Proto.Ipv4Connect | socks/socks5-proto.ts:192-264 | greeting plus IPv4 CONNECT with a successful dial writes `[5,0]` and the grant, then returns the destination |
| Socks5Proto2.ParseAddr | socks/socks5-proto2.ts:55-87 | an unknown ATYP throws; the domain name is read relative to the view's byte offset, but its port from absolute octet `2*offset + 2 + len` |
| Socks5Proto2.GrantReply | socks/socks5-proto2.ts:188-214 | the grant is `[5,0,0,1]`, the bound address, then the local port in big-endian order |
| Socks5Proto2.Step2 | socks/socks5-proto2.ts:113-215 | a continuing step never opens the connection; a handoff writes exactly the grant |
| Socks5Proto2.Run2 | socks/socks5-proto2.ts:113-217 | the loop always ends in a return or a throw |
| Socks5Proto2.GreetingIgnoresMethods | socks/socks5-proto2.ts:115-140 | only the version octet of the greeting matters |
| Socks5Proto2.UnansweredGreeting | socks/socks5-proto2.ts:134-140 | with `auth` set but no password callback, a greeting gets no reply and the state stays ClientHello |
| Socks5Proto2.RequestRejections | socks/socks5-proto2.ts:158-178 | bad VER gives `[5,1]`, bad CMD `[5,2]`, bad RSV `[5,1]`; each closes and returns `undefined` |
| Socks5Proto2.DialFailureWaits | socks/socks5-proto2.ts:189-214 | a failed dial writes nothing and waits for another request |
| Socks5Proto2.RetryAfterDialFailure | socks/socks5-proto2.ts:113-215 | a repeated request after a failed dial is granted and handed off |
| Socks5Proto2.Ipv4AsCurrent | socks/socks5-proto2.ts:59-64 | for IPv4 the draft parser agrees with the SOCKS5 address codec |
| Socks5Proto2.DomainAlwaysThrows | socks/socks5-proto2.ts:77-84 | every domain CONNECT request throws `RangeError` |
| Socks5Proto2.DomainPortMisplaced | socks/socks5-proto2.ts:82 | the misplaced port read runs past every encoded domain request |
| Socks5Proto2.DomainVectorThrows | socks/socks5-proto2.ts:77-84 | the one.one.one.one request throws `RangeError` |
| Socks5Proto2.ClosedReturnsUndefined | socks/socks5-proto2.ts:113-114 | a closed session breaks the loop and returns `undefined` without writing |
| Socks5Proto2.PasswordVerdict | socks/socks5-proto2.ts:141-154 | credentials get the callback's verdict, which picks ClientRequest or Close |
| Socks5Test2.ZeroBuffer | socks/test2.ts:206-208 | the handler's buffer is 256 zero octets |
| Socks5Test2.ReadInto | socks/test2.ts:233 | a read overwrites a prefix of the buffer and leaves the rest; end-of-stream leaves it unchanged |
| Socks5Test2.LeadingZeros | socks/test2.ts:219-231 | counts the leading NoAuth methods, stopping at the first other one |
| Socks5Test2.Greet | socks/test2.ts:219-231 | the greeting is refused exactly when some visited method octet is not NoAuth; a refusal writes `[5,0]` for each method before the first other one and then `[5,0xFF]`; otherwise every visited method gets `[5,0]`, and the handler overruns the 256-octet buffer exactly when the declared count reaches past it |
| Socks5Test2.AnswerMethods | socks/test2.ts:219-231 | the loop writes exactly what `Greet` specifies |
| Socks5Test2.TwoNoAuthMethods | socks/test2.ts:219-231 | `[5,2,0,0]` is answered twice with `[5,0]` |
| Socks5Test2.NoMethodsNoAnswer | socks/test2.ts:219-231 | a greeting with no methods gets no answer at all |
| Socks5Test2.PasswordRefused | socks/test2.ts:219-231 | a Password-only greeting is refused with `[5,0xFF]` |
| Socks5Test2.RequestAddr | socks/test2.ts:245-264 | a domain name past the 256-octet buffer throws; any ATYP other than IPv4 and domain is unsupported |
| Socks5Test2.Handle | socks/test2.ts:204-316 | no first chunk ends the handler silently; a relayed connection was last answered with the grant |
| Socks5Test2.BadVersionClosed | socks/test2.ts:214-216 | a wrong greeting version closes without writing |
| Socks5Test2.RequestAsCurrent | socks/test2.ts:247-259 | IPv4 and domain requests read from the buffer give the destination |
| Socks5Test2.ReadsAsDecoded | socks/test2.ts:247-259 | whenever the SOCKS5 address codec decodes IPv4 or a domain, the handler reads the same address |
| Socks5Test2.Ipv6Refused | socks/test2.ts:260-264 | an IPv6 request is answered `[5,8,0,4]` and closed |
| Socks5Test2.Connect | socks/test2.ts:268-293 | a CONNECT is granted and relayed when the dial succeeds, and answered `[5,5,0,atyp]` when it fails |
| WsFrame.DecodeHeader | websocket/ws-utils.ts:71-98 | FIN, opcode and MASK come from the first two octets. A 7-bit length ≤125 is the length. 126 needs 4 octets and reads 16 bits. 127 needs 10 octets, reads 64 bits and rejects more than the maximum. Each failure is named |
| WsFrame.MaskOf | websocket/ws-utils.ts:99-101 | a masking key exists iff the MASK bit is set, and is the 4 octets after the length |
| WsFrame.DataOf | websocket/ws-utils.ts:102-103 | the payload is the last `length` octets of the frame when the frame is complete |
| WsFrame.ReadFrameUtils | websocket/ws-utils.ts:71-113 | succeeds iff the header decodes and the payload is at most 0xFF_FFFF octets (16 MiB − 1); reports payload and frame lengths |
| WsFrame.ReadFrameWs | websocket/ws.ts:113-156 | succeeds iff the header decodes and the payload is at most 0xFFFF_FFFF octets (4 GiB − 1); `length` is the whole frame length |
| WsFrame.ReadFrameHeader | websocket/ws.ts:184-219 | succeeds iff the header decodes; reports the payload length |
| WsFrame.HeaderAgreesWithFrame | websocket/ws.ts:184-219 | the header reader and the frame reader agree on flags and mask; the frame length is payload plus header size |
| WsFrame.UtilsAgreesWithWs | websocket/ws.ts:113-156 | where the decoder with the 0xFF_FFFF limit succeeds, the one with the 0xFFFF_FFFF limit succeeds with the same frame |
| WsFrame.LimitsDiffer | websocket/ws.ts:40 | payloads of more than 0xFF_FFFF and at most 0xFFFF_FFFF octets are rejected by ws-utils.ts and accepted by ws.ts |
| WsFrame.Unmask | websocket/ws-utils.ts:65-69 | octet i is XORed with key octet i mod 4; a missing key octet is 0 |
| WsFrame.UnmaskInvolution | websocket/ws.ts:107-111 | unmasking twice with the same key restores the payload |
| WsFrame.UnmaskZeroKey | websocket/ws.ts:107-111 | the zero key changes nothing |
| WsFrame.UnmaskNoKey | websocket/ws-utils.ts:65-69 | a key of no octets leaves the payload as it is: every `mask[i & 3]` reads `undefined`, which `^=` takes as 0 (a `null` key, as at websocket/ws.ts:288, throws instead; see WsStream.UnmaskedFrameFails) |
| WsFrame.UnmaskPrefix | websocket/ws.ts:107-111 | unmasking commutes with taking a prefix |
| WsFrame.DecodeEncodedFrame | websocket/ws-utils.ts:71-113 | any frame built per section 5.2 of RFC 6455 decodes to its flags, key and payload; its frame length is its size |
| WsFrame.MaskedBodyDecodes | websocket/ws-utils.ts:99-103 | a masked frame yields its key, and unmasking its data gives the payload |
| WsFrame.UnmaskedBodyDecodes | websocket/ws-utils.ts:99-103 | an unmasked frame has no key, and its data is the payload |
| WsFrame.HeaderOctets | websocket/ws-utils.ts:78-96 | two header octets plus the extended length decode to the flags, the 7-, 16- or 64-bit length and the payload offset |
| WsStream.DeliveredRemasks | websocket/ws.ts:288-289 | the enqueued data re-masked with the frame's key is the raw data |
| WsStream.ReadFrameExtends | websocket/ws.ts:113-156 | appending octets after a complete frame does not change what is read |
| WsStream.ReadFramePrefix | websocket/ws.ts:113-156 | a buffer cut anywhere after a complete frame reads the same frame |
| WsStream.Drain | websocket/ws.ts:284-298 | one frame per raw segment |
| WsStream.DrainKeepsOctets | websocket/ws.ts:284-298 | the consumed frames followed by the remainder are exactly the buffer; no octet is lost or duplicated |
| WsStream.DrainCutsFrames | websocket/ws.ts:286-290 | every emitted segment is the frame it was read as, with its data unmasked |
| WsStream.DrainStops | websocket/ws.ts:287-296 | the loop stops on an empty buffer, or on an incomplete frame with no error, or on a read error or an unmasked payload, which is an error |
| WsStream.DrainHalts | websocket/ws.ts:284-296 | a buffer that starts with an error or an incomplete frame emits nothing and keeps everything |
| WsStream.DrainUnfolds | websocket/ws.ts:286-290 | a complete masked frame is emitted and the loop continues after it |
| WsStream.Transform | websocket/ws.ts:279-298 | a failed stream emits nothing more; otherwise what is emitted is what draining the buffer plus the chunk gives |
| WsStream.DeframeLoop | websocket/ws.ts:284-298 | the loop computes exactly the frames, remainder and error of `Drain` |
| WsStream.EncodedFrameComesOut | websocket/ws.ts:284-290 | a masked frame at the head of the buffer comes out with its payload unmasked |
| WsStream.DrainEncodedFrames | websocket/ws.ts:284-298 | a buffer of masked frames is deframed into exactly those messages, leaving nothing and raising no error |
| WsStream.UnmaskedFrameFails | websocket/ws.ts:288 | an unmasked frame with a payload errors the stream with `TypeError` |
| WsStream.IncompleteFrameWaits | websocket/ws.ts:287-292 | every cut of a small masked frame after its second octet waits without error |
| WsStream.SplitLengthFails | websocket/ws.ts:124-127 | a 126-length frame split after three octets errors the stream, though the same octets in one chunk deliver the frame |
| WsStream.ThreeOctetsFail | websocket/ws.ts:294-296 | any chunk of three octets with length code 126 errors the stream with `RangeError` |
| WsStream.DrainWaitingSplits | websocket/ws.ts:284-298 | when the header is incomplete, the corrected loop's drain of a concatenation is the drain of the first part followed by that of its remainder plus the second part |
| WsStream.TransformWaiting | websocket/ws.ts:279-298 | the corrected transform emits what the corrected drain of buffer plus chunk gives |
| WsStream.ChunkingIrrelevant | websocket/ws.ts:279-298 | with the corrected loop, feeding two chunks in turn emits the same frames and state as feeding their concatenation |
| WsStream.SplitLengthWaits | websocket/ws.ts:124-127 | with the corrected loop, the split 126-length frame waits and then comes out whole |
| WsSend.NumChunks | websocket/ws.ts:224 | `ceil(n / 125)` chunks: enough to hold n, one fewer is not, and none for n = 0 |
| WsSend.Chunk | websocket/ws.ts:227-228 | each chunk is at most 125 octets |
| WsSend.SendChunked | websocket/ws.ts:222-239 | a `Uint8Array` is sent as `ceil(n/125)` packets |
| WsSend.SendSingle | websocket/ws.ts:242-252 | a single packet is 0x81 for text, 0x82 for binary, then `length mod 256`, then the data |
| WsSend.SendMessage | websocket/ws.ts:221-253 | a `Uint8Array` goes out in chunks, anything else in one packet |
| WsSend.ChunkPacketIsFrame | websocket/ws.ts:229-232 | every chunk packet is the unmasked frame with FIN on the last chunk and the continuation opcode after the first |
| WsSend.PacketsDecode | websocket/ws.ts:226-232 | every chunk packet reads back as that frame carrying that chunk |
| WsSend.FlagsByPosition | websocket/ws.ts:229-230 | FIN is set only on the last packet; the opcode is binary on the first and continuation on the rest |
| WsSend.ChunkSizes | websocket/ws.ts:227-228 | every chunk but the last is full, and none is empty |
| WsSend.ChunksReassemble | websocket/ws.ts:222-239 | the chunks concatenated are the message |
| WsSend.EmptyViewSendsNothing | websocket/ws.ts:224-226 | an empty `Uint8Array` sends no packet at all |
| WsSend.SmallSingleIsFrame | websocket/ws.ts:247-251 | up to 125 octets, the single packet is a correct FIN frame |
| WsSend.WrappedLengthReadsEmpty | websocket/ws.ts:249 | a nonempty message whose length is a multiple of 256 reads back as an empty frame |
| WsSend.LongSingleIsNotFrame | websocket/ws.ts:247-251 | from 126 octets on, the single packet is not the frame section 5.2 of RFC 6455 prescribes |
| WsSend.SendSingleCorrected | websocket/ws.ts:242-252 | the corrected sender agrees with the original up to 125 octets |
| WsSend.CorrectedSingleDecodes | websocket/ws.ts:242-252 | every corrected packet within the 0xFFFF_FFFF-octet limit reads back as the FIN frame carrying the whole message |
| Stun.MagicIsCookie | stun/stun.ts:38 | the `magic` octets are the cookie 0x2112A442 in network order, and back |
| Stun.ParseHeader | stun/stun.ts:61-64 | a header needs 20 octets; its transaction id is octets 8 to 20 |
| Stun.CreateMessage | stun/stun.ts:55-69 | the request is 32 octets, ending in 12 zero octets |
| Stun.CreateMessageHeader | stun/stun.ts:61-66 | the request reads back as a Binding request with length 12, the magic cookie and the given transaction id |
| Stun.XorSeqTwice | stun/stun.ts:40 | XOR with the same key twice restores the octets |
| Stun.XorSeqShortKey | stun/stun.ts:40 | past the key's end an octet is XORed with `undefined`, i.e. kept |
| Stun.Advance | stun/stun.ts:81 | the walk advances by the value length; the padded walk rounds up to a multiple of 4 |
| Stun.Attrs | stun/stun.ts:71-85 | the attribute walk fails only with `RangeError` |
| Stun.AttrsBound | stun/stun.ts:75-82 | the walk yields at most one attribute per four octets |
| Stun.AttrValue | stun/stun.ts:76-79 | the value is the `length` octets after the type and length, clamped to the data |
| Stun.FirstMapped | stun/stun.ts:104-117 | picks the value of the first XOR-MAPPED-ADDRESS, or none if no attribute has that type |
| Stun.FindMappedAgrees | stun/stun.ts:104-117 | the lazy search returns what the first-match rule gives on the full walk |
| Stun.FindMappedFails | stun/stun.ts:104-117 | the search fails only where the walk fails, with the same error |
| Stun.LazyAfterMatch | stun/stun.ts:104-117 | octets after a match are never read: a truncated tail does not stop the search |
| Stun.EncodeAttrFields | stun/stun.ts:77-79 | an encoded attribute holds its type, its length and its value where the walk reads them |
| Stun.AttrsRoundTrip | stun/stun.ts:71-85 | the walk over encoded attributes gives back exactly those attributes, padded or not |
| Stun.FirstMappedAfter | stun/stun.ts:104-105 | after attributes of other types, the XOR-MAPPED-ADDRESS value is the one found |
| Stun.DecodeXorMapped | stun/stun.ts:106-114 | fewer than 4 value octets throw `RangeError`; the family is IPv4 iff the family octet is 0x01; the port is 16 bits |
| Stun.DecodeXorMappedRoundTrip | stun/stun.ts:108-114 | a mapped-address value built per section 15.2 of RFC 5389 decodes to its address and port |
| Stun.CheckResponse | stun/stun.ts:97-102 | a response passes only if the header is complete and carries the request's transaction id |
| Stun.GetMappedAddress | stun/stun.ts:91-118 | fewer than 2 octets throw; a type other than 0x0101 is rejected; a result implies a success type and the matching transaction id |
| Stun.WrongTxidRejected | stun/stun.ts:100-102 | a success response with another transaction id is rejected |
| Stun.ResponseReads | stun/stun.ts:97-104 | a Binding success response passes the checks, and its attributes walk back as sent |
| Stun.MappedAddressRoundTrip | stun/stun.ts:91-118 | an unpadded response carrying the mapped address gives back its IPv4 text and port |
| Stun.FamilyAlwaysIpv4 | stun/stun.ts:106-107 | every address found is reported as IPv4 |
| Stun.HeaderFieldsIgnored | stun/stun.ts:96-104 | the length and cookie fields are never checked |
| Stun.Ipv6FamilyReadAsIpv4 | stun/stun.ts:106-107 | an address whose family octet is IPv6 is reported as IPv4; the corrected reader reports IPv6 |
| Stun.GetMappedAddressCorrected | stun/stun.ts:91-118 | the corrected reader still requires the success type and the matching transaction id |
| Stun.CorrectedRoundTrip | stun/stun.ts:91-118 | with 4-octet padding and the family read from the attribute, any response gives back its address, family and port |
| Stun.UnpaddedWalkMisses | stun/stun.ts:75-81 | walking a padded SOFTWARE attribute without padding skips the mapped address |
| Stun.PaddingHidesAddress | stun/stun.ts:75-81 | a padded response with SOFTWARE before the address yields no address; the corrected reader finds it |
| UpnpOs.Ints | upnp/os.ts:10-12 | the filter keeps no more than it is given |
| UpnpOs.IntsMembership | upnp/os.ts:10-12 | an interface is kept iff it is IPv4 and its address is local |
| UpnpOs.IntsAppend | upnp/os.ts:10-12 | filtering keeps the system's order |
| UpnpOs.IntsIdempotent | upnp/os.ts:10-12 | filtering twice is filtering once |
| UpnpOs.AnyOneSevenTwo | upnp/os.ts:1-8 | every address under 172. counts as local |
| UpnpOs.LoopbackExact | upnp/os.ts:6 | 127.0.0.1 is local, but 127.0.0.2 and 127.0.0.10 are not |
| UpnpOs.NotLocal | upnp/os.ts:1-8 | 8.8.8.8, ::1 and 100.64.0.1 are not local |
| UpnpOs.DefaultHostnames | upnp/os.ts:10-12 | the default hostnames are the addresses of the kept interfaces, in order |
| Ssdp.BindSpec | upnp/ssdp.ts:16-27 | given hostnames are used as they are, and an empty list throws. Unset, they default to the local interface addresses, which throws iff there are none |
| Ssdp.SearchLines | upnp/ssdp.ts:36-44 | the search has seven lines, the last two empty |
| Ssdp.SearchMessageText | upnp/ssdp.ts:36-44 | the message is the fixed head, the target and a blank line |
| Ssdp.PortAndMxText | upnp/ssdp.ts:4-5 | the port renders as "1900" and MX as "3" |
| Ssdp.DefaultTarget | upnp/ssdp.ts:35 | the default search target is `ssdp:all` |
| Ssdp.SearchLinesRecovered | upnp/ssdp.ts:36-44 | splitting the message at CRLF gives back its lines when the target has no CR |
| Ssdp.StatusFields | upnp/ssdp.ts:76-79 | the status line sets `version`, `statusCode` and `statusMessage` |
| Ssdp.HeaderBlock | upnp/ssdp.ts:81-84 | the header block is the longest prefix without an empty line |
| Ssdp.OnlyHeaderBlock | upnp/ssdp.ts:82-83 | lines after the first empty line are never read |
| Ssdp.LastWith | upnp/ssdp.ts:85-86 | finds the last line whose lower-cased name is the key |
| Ssdp.AddHeadersSpec | upnp/ssdp.ts:81-87 | a key is present iff it was before or some line names it; the last such line's value wins |
| Ssdp.AddHeadersSnoc | upnp/ssdp.ts:85-86 | one more line overwrites exactly its own key |
| Ssdp.ParseLinesSpec | upnp/ssdp.ts:72-89 | the result holds the status fields and the block's keys. A key's value is that of its last line in the block, or else the status field |
| Ssdp.VersionOverwritten | upnp/ssdp.ts:77-86 | a `VERSION:` header overwrites the status line's version |
| Ssdp.NameOfHeader | upnp/ssdp.ts:85 | the name is the text before the first ": ", and the value after it when no further ": " occurs |
| Ssdp.ValueCut | upnp/ssdp.ts:85 | a value containing ": " is cut at it |
| Ssdp.ResponseRoundTrip | upnp/ssdp.ts:72-89 | a response of distinct, well-formed headers parses to every header under its lower-cased name with its value, with the status fields kept |
| Ssdp.NoLineWithCapital | upnp/ssdp.ts:86 | a key containing a capital letter can never be set by a header |
| Ssdp.StatusKept | upnp/ssdp.ts:78-79 | `statusCode` and `statusMessage` are never overwritten by a header |
| Igd.ServicePart | upnp/igd.ts:127-133 | a service list yields at most one entry; a list without a service throws `TypeError` |
| Igd.Flatten | upnp/igd.ts:118-138 | a flattened device starts with its own device entry; the only failure is `TypeError` |
| Igd.FlattenOk | upnp/igd.ts:118-138 | flattening succeeds iff no device on the chain has an empty service or device list |
| Igd.FlattenParts | upnp/igd.ts:118-138 | a device yields its own entry, its service, then what its child device yields |
| Igd.FlattenDevices | upnp/igd.ts:119-125 | the device entries are one per device of the chain, in nesting order |
| Igd.FlattenServices | upnp/igd.ts:127-133 | the service entries are the declared services of the chain, in nesting order |
| Igd.DeviceEntriesAppend | upnp/igd.ts:135-137 | selecting device entries distributes over concatenation |
| Igd.ServiceEntriesAppend | upnp/igd.ts:53 | filtering services distributes over concatenation |
| Igd.FirstWan | upnp/igd.ts:54 | finds the first service whose type is one of the three WAN connection types |
| Igd.FilterThenFind | upnp/igd.ts:52-54 | filtering for services and then finding a WAN one picks the first WAN service of the whole list |
| Igd.SelectService | upnp/igd.ts:50-65 | the returned service is a WAN service with a truthy control URL; each failure names its reason |
| Igd.SelectServiceSpec | upnp/igd.ts:56-62 | no WAN service throws "not found"; the first WAN service is returned iff its control URL is truthy |
| Igd.GetService | upnp/igd.ts:50-65 | the only failures are `TypeError`, service-not-found and no-control-URL |
| Igd.JsonEscapeRoundTrip | upnp/igd.ts:91 | `JSON.stringify` escaping is undone by JSON unescaping |
| Igd.SoapActionRoundTrip | upnp/igd.ts:91 | the header value is a JSON string whose content is `serviceType#action` |
| Igd.SoapActionPlain | upnp/igd.ts:91 | for printable text without quotes or backslashes, the value is the text in double quotes |

## Left out

- Sockets, `Deno.connect`, stream readers and writers, `Promise.race` and the relay copy after a handoff. The outcome of each dial and the received datagrams are parameters.
- `getBndAddr` (socks/utils.ts:21-31) reads the interface list. The bound address is a parameter.
- How `upgradeSocks5` tells a synchronous validator from an asynchronous one. The validator is a pure function of the credentials.
- `TextEncoder` and `TextDecoder` are modelled on ASCII as one octet per character. UTF-8 multi-octet sequences and lone surrogates are not modelled.
- `Text.ToLower` folds only ASCII letters, whereas `toLowerCase` folds all of Unicode.
- Ssdp: a `__proto__` header name is stored as an ordinary key. In JavaScript it would set the object's prototype.
- The XML parser behind `getDevice` is not part of this model. The device tree is a datatype.
- XML arrays, i.e. several `<service>` elements in one list, are not modelled.
- A missing `deviceType` or `serviceType` is not modelled. The model takes it as a string.
- `fetch`, the SOAP request body and its fault handling in `send` (upnp/igd.ts:67-112).
- `Igd.JsonEscapeRoundTrip`: the unescaper accepts only the escapes `JSON.stringify` writes, not every JSON escape.
- WebSocket: the opening handshake, `sendClose` (websocket/ws.ts:255-270), and the block after websocket/ws.ts:326, which is never reached because the function has already returned.
- STUN: the random transaction id, the constructor, the socket and `close`. The transaction id is a parameter.
- Every SOCKS5 chunk is taken to be its own whole `ArrayBuffer`, starting at byte offset 0. The code reads through `c.buffer` (socks/socks5.ts:74 and 126, socks/utils.ts:4-8, socks/socks5-proto.ts:90, socks/socks5-proto2.ts:56, 80 and 181). When a chunk is a view onto a larger buffer, those reads see the octets after the chunk instead of throwing. The WebSocket deframer is not affected, because websocket/ws.ts:282 copies each chunk into a fresh array.
- Socks5Auth.ParseAuthPassword: the `RangeError` on a short request holds only when the chunk is its own buffer (socks/utils.ts:4-8 reads `buf.buffer`).
- Socks5Auth.AuthTruncated: the `RangeError` of every proper prefix holds only when the prefix is its own buffer.
- Socks5Engine.Greet: the `RangeError` for an empty or short greeting holds only when the chunk is its own buffer (socks/socks5.ts:74 reads `c.buffer`).
- Socks5Engine.Request: the `RangeError` for a short header or a short address holds only when the chunk is its own buffer (socks/socks5.ts:126 reads `c.buffer`).
- Socks5Engine.Request: the `if (!addr)` branch of socks/socks5.ts:152-156, which closes the writer and throws `SOCKS5 Parse addr error`, is never taken. The reconstructed parser throws on every failure, as both draft parsers do, and does not return a falsy value.
- Socks5Proto2.DomainAlwaysThrows: the `RangeError` holds only when the chunk is its own buffer (socks/socks5-proto2.ts:181 reads `c.buffer`).
- Socks5Proto2.DomainVectorThrows: the `RangeError` holds only when the chunk is its own buffer.
- `UpnpOs.LoopbackExact` and `Socks5Auth.LocalPeerExamples` state examples. The general rule is the prefix test they instantiate, so no all-inputs lemma is needed.

## Findings

| source | as written | input that shows it | evidently intended | confidence | as-written member | corrected member |
|---|---|---|---|---|---|---|
| socks/socks5-proto2.ts:77-84 | the domain port is read from view index `offset + 2 + len`, on a view that already starts `offset` octets in; at the call site of socks/socks5-proto2.ts:181 the chunk view starts at octet 4, so the name is also read 4 octets late, from octet 9, and that read already runs past the request | `05 01 00 03 0f "one.one.one.one" 03 55` throws `RangeError` | read the port right after the name | not executed | Socks5Proto2.DomainPortMisplaced | Socks5Addr.VectorDomain |
| socks/socks5-proto.ts:102-108 | the name is sliced from absolute octet 1 of the buffer, and the port is read from the view's `1 + len` | the one.one.one.one request reads the name from `01 00 03 0f …` and port 0x6503 | read the name after the length octet, and the port after the name | not executed | Socks5Proto.DomainVector | Socks5Addr.DomainRequest |
| websocket/ws.ts:124-127 | a 16-bit extended length still missing from the buffer throws `RangeError`, and the `catch` errors the stream | a masked 126-octet frame arriving as 3 octets, then the rest | wait for more octets, as for an incomplete payload | not executed | WsStream.SplitLengthFails | WsStream.SplitLengthWaits |
| websocket/ws.ts:247-250 | the single-frame length octet is `data.length`, truncated to 8 bits, with no extended length | a 256-octet binary message is sent as `82 00` followed by 256 octets | use the 126/127 extended length of section 5.2 of RFC 6455 | not executed | WsSend.WrappedLengthReadsEmpty | WsSend.CorrectedSingleDecodes |
| stun/stun.ts:106-107 | the family is read through a `DataView` on the whole datagram buffer, which is octet 1 of the message type | an XOR-MAPPED-ADDRESS with family 0x02 is reported as IPv4 | read the family from the attribute value | not executed | Stun.Ipv6FamilyReadAsIpv4 | Stun.CorrectedRoundTrip |
| stun/stun.ts:75-81 | the attribute walk advances by `4 + length`, without the 4-octet padding of section 15 of RFC 5389 | SOFTWARE "a" (padded to 4) followed by XOR-MAPPED-ADDRESS gives no address | round the advance up to a multiple of 4 | not executed | Stun.PaddingHidesAddress | Stun.GetMappedAddressCorrected |
