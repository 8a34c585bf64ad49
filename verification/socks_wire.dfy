/** SOCKS version 5 constants and the server's reply encoders
    (RFC 1928 sections 3, 4 and 6; RFC 1929 section 2 for the
    username/password status message).
 */
module Socks5Wire {
  import opened Wrappers
  import opened Bytes

  const VER: byte := 0x05
  const RSV: byte := 0x00

  /** Authentication methods the server knows (the `AUTH` enum). */
  const NO_AUTH: byte := 0x00
  const PASSWORD: byte := 0x02
  /** "No acceptable methods", the default argument of the method-choice encoder. */
  const NO_ACCEPTABLE: byte := 0xFF

  /** Address types (`ATYP`). */
  const ATYP_IPV4: byte := 0x01
  const ATYP_DOMAIN: byte := 0x03
  const ATYP_IPV6: byte := 0x04

  /** The only command the engines accept, CONNECT. */
  const CMD_CONNECT: byte := 0x01

  /** Reply codes (`REP`), RFC 1928 section 6. */
  datatype Reply =
    | Succeeded
    | GeneralFailure
    | NotAllowedByRuleset
    | NetworkUnreachable
    | HostUnreachable
    | ConnectionRefused
    | TtlExpired
    | CommandNotSupported
    | AddressTypeNotSupported

  function ReplyCode(r: Reply): (b: byte)
    ensures b <= 0x08
    ensures b == 0x00 <==> r == Succeeded
  {
    match r
    case Succeeded => 0x00
    case GeneralFailure => 0x01
    case NotAllowedByRuleset => 0x02
    case NetworkUnreachable => 0x03
    case HostUnreachable => 0x04
    case ConnectionRefused => 0x05
    case TtlExpired => 0x06
    case CommandNotSupported => 0x07
    case AddressTypeNotSupported => 0x08
  }

  /** The reply a code byte denotes; the inverse of `ReplyCode`. */
  function ReplyOf(b: byte): (r: Option<Reply>)
    ensures r.Some? <==> b <= 0x08
    ensures r.Some? ==> ReplyCode(r.value) == b
  {
    if b == 0x00 then Some(Succeeded)
    else if b == 0x01 then Some(GeneralFailure)
    else if b == 0x02 then Some(NotAllowedByRuleset)
    else if b == 0x03 then Some(NetworkUnreachable)
    else if b == 0x04 then Some(HostUnreachable)
    else if b == 0x05 then Some(ConnectionRefused)
    else if b == 0x06 then Some(TtlExpired)
    else if b == 0x07 then Some(CommandNotSupported)
    else if b == 0x08 then Some(AddressTypeNotSupported)
    else None
  }

  lemma ReplyCodeInjective(r: Reply)
    ensures ReplyOf(ReplyCode(r)) == Some(r)
  {
  }

  /** The connection states of the `ConnectionState` enum. */
  datatype State = ClientHello | ClientAuth | ClientRequest | Close | Open

  // ---------------------------------------------------------------------
  // Encoders (socks/socks5.ts)

  /** `acceptAuthMethod(authType = 0xff)`: the method-selection message
      `VER METHOD`; an absent argument selects "no acceptable methods". */
  function AcceptAuthMethod(choice: Option<byte>): (r: seq<byte>)
    ensures |r| == 2 && r[0] == VER
    ensures choice.Some? ==> r[1] == choice.value
    ensures choice.None? ==> r[1] == NO_ACCEPTABLE
  {
    [VER, choice.GetOr(NO_ACCEPTABLE)]
  }

  /** `authGranted(status = true)`: the RFC 1929 status message, version
      0x01 and status 0x00 for success or 0x01 for failure. */
  function AuthGranted(granted: bool): (r: seq<byte>)
    ensures |r| == 2 && r[0] == 0x01
    ensures r[1] == 0x00 <==> granted
  {
    [0x01, if granted then 0x00 else 0x01]
  }

  /** The arguments of `acceptConn`: a success carries the address type and
      the bound address and port octets; any other reply carries only its code. */
  datatype ConnReply =
    | Success(addrType: byte, bndAddr: seq<byte>, bndPort: seq<byte>)
    | Failure(reply: Reply)

  predicate ValidConnReply(c: ConnReply) {
    c.Failure? ==> c.reply != Succeeded
  }

  /** `acceptConn`: `VER REP RSV ATYP BND.ADDR BND.PORT` on success and the two
      octets `VER REP` for every other reply. */
  function AcceptConn(c: ConnReply): (r: seq<byte>)
    requires ValidConnReply(c)
    ensures |r| >= 2 && r[0] == VER
    ensures c.Failure? ==> |r| == 2 && r[1] == ReplyCode(c.reply) && r[1] != 0x00
    ensures c.Success? ==> |r| == 4 + |c.bndAddr| + |c.bndPort|
    ensures c.Success? ==> r[1] == 0x00 && r[2] == RSV && r[3] == c.addrType
    ensures c.Success? ==> r[4..4 + |c.bndAddr|] == c.bndAddr && r[4 + |c.bndAddr|..] == c.bndPort
  {
    match c
    case Success(atyp, addr, port) => [VER, ReplyCode(Succeeded), RSV, atyp] + addr + port
    case Failure(rep) => [VER, ReplyCode(rep)]
  }

  /** How a client reads a reply written by `AcceptConn`: a two-octet
      message is a failure, a longer one a success whose last two octets are
      the bound port. */
  function ParseConnReply(r: seq<byte>): (c: Option<ConnReply>)
    ensures c.Some? ==> ValidConnReply(c.value)
  {
    if |r| == 2 && r[0] == VER && r[1] != 0x00 && ReplyOf(r[1]).Some? then
      Some(Failure(ReplyOf(r[1]).value))
    else if |r| >= 6 && r[0] == VER && r[1] == 0x00 && r[2] == RSV then
      Some(Success(r[3], r[4..|r| - 2], r[|r| - 2..]))
    else
      None
  }

  /** Every reply the encoder writes is read back as what was encoded,
      provided the bound port has its two octets. */
  lemma ConnReplyRoundTrip(c: ConnReply)
    requires ValidConnReply(c)
    requires c.Success? ==> |c.bndPort| == 2
    ensures ParseConnReply(AcceptConn(c)) == Some(c)
  {
    var r := AcceptConn(c);
    if c.Success? {
      assert r[4..|r| - 2] == c.bndAddr;
      assert r[|r| - 2..] == c.bndPort;
    } else {
      ReplyCodeInjective(c.reply);
    }
  }

  /** The method choice a client reads from the selection message. */
  function ParseAuthMethod(r: seq<byte>): (m: Option<byte>)
    ensures m.Some? ==> |r| == 2 && r[0] == VER
  {
    if |r| == 2 && r[0] == VER then Some(r[1]) else None
  }

  /** The client reads back the method chosen; the default reads as 0xFF. */
  lemma AuthMethodRoundTrip(choice: Option<byte>)
    ensures ParseAuthMethod(AcceptAuthMethod(choice)) == Some(choice.GetOr(NO_ACCEPTABLE))
    ensures choice.None? ==> ParseAuthMethod(AcceptAuthMethod(choice)) == Some(0xFF)
  {
  }
}
