/** The SOCKS5 destination address (`ATYP DST.ADDR DST.PORT`, RFC 1928
    section 5) and the decoder the current engine uses.

    The decoder's source is not part of this model: the engine imports a
    `parseSocks5Addr` that the shown socks/utils.ts does not define. Its
    layout is taken from the two drafts that agree on it (the IPv4 and IPv6
    branches of socks/socks5-proto2.ts and the domain branch of
    socks/test2.ts), and its IPv6 rendering from the vector in
    socks/utils.test.ts: eight groups of four lower-case hex digits.
 */
module Socks5Addr {
  import opened Wrappers
  import opened Bytes
  import opened Text
  import opened Socks5Wire

  datatype AddrType = IPv4 | DomainName | IPv6

  /** A decoded destination, `{hostname, port, type}`. */
  datatype Address = Address(kind: AddrType, hostname: string, port: nat)

  const INVALID_ADDR_TYPE := "Invalid ADDR type"

  // ---------------------------------------------------------------------
  // IPv6 text: eight groups of four lower-case hex digits joined by ':'

  /** Each pair of octets as one four-digit hex group. */
  function HexGroups(bs: seq<byte>): (gs: seq<string>)
    requires |bs| % 2 == 0
    ensures |gs| == |bs| / 2
  {
    if |bs| == 0 then [] else [Hex2(bs[0]) + Hex2(bs[1])] + HexGroups(bs[2..])
  }

  /** Every group is four hexadecimal digits. */
  lemma {:induction false} HexGroupsDigits(bs: seq<byte>)
    requires |bs| % 2 == 0
    ensures forall i :: 0 <= i < |HexGroups(bs)| ==>
              |HexGroups(bs)[i]| == 4 && forall k :: 0 <= k < 4 ==> IsHexDigit(HexGroups(bs)[i][k])
  {
    if |bs| > 0 {
      HexGroupsDigits(bs[2..]);
      var gs := HexGroups(bs);
      assert gs[1..] == HexGroups(bs[2..]);
    }
  }

  function ParseHexGroups(gs: seq<string>): (r: Option<seq<byte>>)
    ensures r.Some? ==> |r.value| == 2 * |gs|
  {
    if |gs| == 0 then Some([])
    else if |gs[0]| == 4 && forall k :: 0 <= k < 4 ==> IsHexDigit(gs[0][k]) then
      match ParseHexGroups(gs[1..])
      case None => None
      case Some(rest) => Some([Hex2Value(gs[0][..2]), Hex2Value(gs[0][2..])] + rest)
    else None
  }

  lemma {:induction false} HexGroupsRoundTrip(bs: seq<byte>)
    requires |bs| % 2 == 0
    ensures ParseHexGroups(HexGroups(bs)) == Some(bs)
  {
    if |bs| > 0 {
      var g := Hex2(bs[0]) + Hex2(bs[1]);
      assert g[..2] == Hex2(bs[0]) && g[2..] == Hex2(bs[1]);
      Hex2RoundTrip(bs[0]);
      Hex2RoundTrip(bs[1]);
      HexGroupsRoundTrip(bs[2..]);
      assert bs == [bs[0], bs[1]] + bs[2..];
    }
  }

  /** The IPv6 host text of the current decoder. */
  function Ipv6Text(bs: seq<byte>): string
    requires |bs| == 16
  {
    Join(HexGroups(bs), ":")
  }

  function ParseIpv6Text(s: string): (r: Option<seq<byte>>)
    ensures r.Some? ==> |r.value| == 16
  {
    var parts := Split(s, ":");
    if |parts| == 8 then ParseHexGroups(parts) else None
  }

  /** The IPv6 rendering is lossless: the text parses back to the 16 octets. */
  lemma Ipv6TextRoundTrip(bs: seq<byte>)
    requires |bs| == 16
    ensures ParseIpv6Text(Ipv6Text(bs)) == Some(bs)
  {
    var gs := HexGroups(bs);
    HexGroupsDigits(bs);
    forall i | 0 <= i < |gs|
      ensures ":"[0] !in gs[i] && Free(gs[i], ":")
    {
      assert |gs[i]| == 4 && forall k :: 0 <= k < 4 ==> IsHexDigit(gs[i][k]);
      NoSeparator(gs[i], ":");
    }
    SplitJoin(gs, ":");
    HexGroupsRoundTrip(bs);
  }

  // ---------------------------------------------------------------------
  // The decoder

  /** `parseSocks5Addr(c, offset)`: ATYP at `offset`, then the address and
      the big-endian port. A read past the end of the chunk is a
      `RangeError`; an unknown ATYP is `Invalid ADDR type`. */
  function DecodeAddress(c: seq<byte>, offset: nat): (r: Result<Address>)
    ensures r == Err(INVALID_ADDR_TYPE) <==>
              offset < |c| && c[offset] !in {ATYP_IPV4, ATYP_DOMAIN, ATYP_IPV6}
    ensures r.Ok? ==> offset < |c|
    ensures r.Ok? && r.value.kind == IPv4 ==> c[offset] == ATYP_IPV4 && offset + 7 <= |c|
    ensures r.Ok? && r.value.kind == IPv6 ==> c[offset] == ATYP_IPV6 && offset + 19 <= |c|
    ensures r.Ok? && r.value.kind == DomainName ==>
              c[offset] == ATYP_DOMAIN && offset + 2 <= |c| && offset + 4 + c[offset + 1] <= |c|
    ensures r.Ok? ==> r.value.port < 0x1_0000
  {
    if offset >= |c| then Err(RANGE_ERROR)
    else
      var t := c[offset];
      if t == ATYP_IPV4 then
        if offset + 7 > |c| then Err(RANGE_ERROR)
        else Ok(Address(IPv4, DottedQuad(c[offset + 1..offset + 5]), U16(c[offset + 5], c[offset + 6])))
      else if t == ATYP_IPV6 then
        if offset + 19 > |c| then Err(RANGE_ERROR)
        else Ok(Address(IPv6, Ipv6Text(c[offset + 1..offset + 17]), U16(c[offset + 17], c[offset + 18])))
      else if t == ATYP_DOMAIN then
        if offset + 2 > |c| then Err(RANGE_ERROR)
        else
          var len := c[offset + 1];
          if offset + 4 + len > |c| then Err(RANGE_ERROR)
          else Ok(Address(DomainName, DecodeAscii(c[offset + 2..offset + 2 + len]),
                          U16(c[offset + 2 + len], c[offset + 3 + len])))
      else Err(INVALID_ADDR_TYPE)
  }

  // ---------------------------------------------------------------------
  // The client's side: what a request carries, and what decoding it must give

  /** A destination as a client writes it: raw octets and a port. */
  datatype Destination =
    | V4(octets: seq<byte>, dport: nat)
    | Domain(name: seq<byte>, dport: nat)
    | V6(octets: seq<byte>, dport: nat)

  predicate ValidDestination(d: Destination) {
    && d.dport < 0x1_0000
    && (d.V4? ==> |d.octets| == 4)
    && (d.V6? ==> |d.octets| == 16)
    && (d.Domain? ==> |d.name| < 256)
  }

  /** `ATYP DST.ADDR DST.PORT` as RFC 1928 section 5 lays it out. */
  function EncodeDestination(d: Destination): (r: seq<byte>)
    requires ValidDestination(d)
  {
    match d
    case V4(o, p) => [ATYP_IPV4] + o + BeBytes(p, 2)
    case V6(o, p) => [ATYP_IPV6] + o + BeBytes(p, 2)
    case Domain(n, p) => [ATYP_DOMAIN, |n|] + n + BeBytes(p, 2)
  }

  /** The address a destination denotes once rendered as text. */
  function Denoted(d: Destination): Address
    requires ValidDestination(d)
  {
    match d
    case V4(o, p) => Address(IPv4, DottedQuad(o), p)
    case V6(o, p) => Address(IPv6, Ipv6Text(o), p)
    case Domain(n, p) => Address(DomainName, DecodeAscii(n), p)
  }

  /** Any request header followed by an encoded destination decodes to the
      destination's address: the port is the two octets right after the
      address (after the name, for a domain). */
  lemma DecodeEncoded(header: seq<byte>, d: Destination)
    requires |header| == 3 && ValidDestination(d)
    ensures DecodeAddress(header + EncodeDestination(d), 3) == Ok(Denoted(d))
  {
    match d
    case V4(o, p) => DecodeEncodedV4(header, o, p);
    case V6(o, p) => DecodeEncodedV6(header, o, p);
    case Domain(n, p) => DecodeEncodedDomain(header, n, p);
  }

  lemma DecodeEncodedV4(header: seq<byte>, o: seq<byte>, p: nat)
    requires |header| == 3 && |o| == 4 && p < 0x1_0000
    ensures DecodeAddress(header + EncodeDestination(V4(o, p)), 3) == Ok(Address(IPv4, DottedQuad(o), p))
  {
    var pb := BeBytes(p, 2);
    U16OfBeBytes(p);
    var c := header + ([ATYP_IPV4] + o + pb);
    assert c[3] == ATYP_IPV4 && c[4..8] == o && c[8] == pb[0] && c[9] == pb[1];
  }

  lemma DecodeEncodedV6(header: seq<byte>, o: seq<byte>, p: nat)
    requires |header| == 3 && |o| == 16 && p < 0x1_0000
    ensures DecodeAddress(header + EncodeDestination(V6(o, p)), 3) == Ok(Address(IPv6, Ipv6Text(o), p))
  {
    var pb := BeBytes(p, 2);
    U16OfBeBytes(p);
    var c := header + ([ATYP_IPV6] + o + pb);
    assert c[3] == ATYP_IPV6 && c[4..20] == o && c[20] == pb[0] && c[21] == pb[1];
  }

  lemma DecodeEncodedDomain(header: seq<byte>, n: seq<byte>, p: nat)
    requires |header| == 3 && |n| < 256 && p < 0x1_0000
    ensures DecodeAddress(header + EncodeDestination(Domain(n, p)), 3) == Ok(Address(DomainName, DecodeAscii(n), p))
  {
    var pb := BeBytes(p, 2);
    U16OfBeBytes(p);
    var c := header + ([ATYP_DOMAIN, |n|] + n + pb);
    assert c[3] == ATYP_DOMAIN && c[4] == |n|;
    assert c[5..5 + |n|] == n;
    assert c[5 + |n|] == pb[0] && c[6 + |n|] == pb[1];
  }

  /** Decoding loses nothing: the octets of the destination can be read back
      from the decoded text for every IPv4 and IPv6 destination. */
  lemma DecodeIsLossless(header: seq<byte>, d: Destination)
    requires |header| == 3 && ValidDestination(d) && !d.Domain?
    ensures DecodeAddress(header + EncodeDestination(d), 3).Ok?
    ensures var a := DecodeAddress(header + EncodeDestination(d), 3).value;
            && a.port == d.dport
            && (d.V4? ==> ParseDottedQuad(a.hostname) == Some(d.octets))
            && (d.V6? ==> ParseIpv6Text(a.hostname) == Some(d.octets))
  {
    DecodeEncoded(header, d);
    if d.V4? {
      DottedQuadRoundTrip(d.octets);
    } else {
      Ipv6TextRoundTrip(d.octets);
    }
  }

  // ---------------------------------------------------------------------
  // The vectors of socks/utils.test.ts

  lemma LoopbackV4Text()
    ensures DottedQuad([127, 0, 0, 1]) == "127.0.0.1"
  {
    assert NatToDecimal(12) == "12";
    assert NatToDecimal(127) == "127";
    assert DecimalParts([1]) == ["1"];
    assert DecimalParts([0, 1]) == ["0", "1"];
    assert DecimalParts([0, 0, 1]) == ["0", "0", "1"];
    assert DecimalParts([127, 0, 0, 1]) == ["127", "0", "0", "1"];
  }

  /** `[5,1,0,1, 127,0,0,1, 3,0x55]` is 127.0.0.1 port 853. */
  lemma VectorIpv4()
    ensures DecodeAddress([0x05, 0x01, 0x00, 0x01, 0x7f, 0x00, 0x00, 0x01, 0x03, 0x55], 3)
         == Ok(Address(IPv4, "127.0.0.1", 853))
  {
    var c: seq<byte> := [0x05, 0x01, 0x00, 0x01, 0x7f, 0x00, 0x00, 0x01, 0x03, 0x55];
    assert c[4..8] == [127, 0, 0, 1];
    LoopbackV4Text();
  }

  lemma HexGroupsCons(a: byte, b: byte, rest: seq<byte>)
    requires |rest| % 2 == 0
    ensures HexGroups([a, b] + rest) == [Hex2(a) + Hex2(b)] + HexGroups(rest)
  {
    assert ([a, b] + rest)[2..] == rest;
  }

  const LOOPBACK_V6: seq<byte> := [0, 0, 0, 0, 0, 0, 0, 0, 0, 0, 0, 0, 0, 0, 0, 1]

  const ZERO_GROUPS: seq<string> := ["0000", "0000", "0000", "0000", "0000", "0000", "0000", "0001"]

  lemma LoopbackV6Groups()
    ensures HexGroups(LOOPBACK_V6) == ZERO_GROUPS
  {
    var o := LOOPBACK_V6;
    Hex2Small();
    HexGroupsOf16(o);
  }

  lemma Hex2Small()
    ensures Hex2(0) + Hex2(0) == "0000" && Hex2(0) + Hex2(1) == "0001"
  {
  }

  /** The eight groups of sixteen octets. */
  lemma HexGroupsOf16(bs: seq<byte>)
    requires |bs| == 16
    ensures HexGroups(bs) == [Hex2(bs[0]) + Hex2(bs[1]), Hex2(bs[2]) + Hex2(bs[3]),
                              Hex2(bs[4]) + Hex2(bs[5]), Hex2(bs[6]) + Hex2(bs[7]),
                              Hex2(bs[8]) + Hex2(bs[9]), Hex2(bs[10]) + Hex2(bs[11]),
                              Hex2(bs[12]) + Hex2(bs[13]), Hex2(bs[14]) + Hex2(bs[15])]
  {
    HexGroupsAll(bs);
  }

  lemma HexGroupsAll(bs: seq<byte>)
    requires |bs| % 2 == 0
    ensures forall i :: 0 <= i < |bs| / 2 ==> HexGroups(bs)[i] == Hex2(bs[2 * i]) + Hex2(bs[2 * i + 1])
  {
    forall i | 0 <= i < |bs| / 2
      ensures HexGroups(bs)[i] == Hex2(bs[2 * i]) + Hex2(bs[2 * i + 1])
    {
      HexGroupsAt(bs, i);
    }
  }

  /** Group `i` is the pair of octets at `2 * i`. */
  lemma {:induction false} HexGroupsAt(bs: seq<byte>, i: nat)
    requires |bs| % 2 == 0 && i < |bs| / 2
    ensures HexGroups(bs)[i] == Hex2(bs[2 * i]) + Hex2(bs[2 * i + 1])
  {
    if i > 0 {
      HexGroupsAt(bs[2..], i - 1);
      assert bs[2..][2 * (i - 1)] == bs[2 * i];
      assert bs[2..][2 * (i - 1) + 1] == bs[2 * i + 1];
    }
  }

  lemma LoopbackV6Text()
    ensures Ipv6Text(LOOPBACK_V6) == "0000:0000:0000:0000:0000:0000:0000:0001"
  {
    LoopbackV6Groups();
    JoinZeroGroups();
  }

  lemma JoinTail(g: seq<string>, k: nat, sep: string)
    requires k + 1 < |g|
    ensures Join(g[k..], sep) == g[k] + sep + Join(g[k + 1..], sep)
  {
    assert g[k..][1..] == g[k + 1..];
  }

  lemma JoinZeroGroups()
    ensures Join(ZERO_GROUPS, ":") == "0000:0000:0000:0000:0000:0000:0000:0001"
  {
    var z := "0000";
    Join8(z, z, z, z, z, z, z, "0001", ":");
    assert ZERO_GROUPS == [z, z, z, z, z, z, z, "0001"];
    ZeroGroupsText();
  }

  lemma ZeroGroupsText()
    ensures "0000" + ":" + "0000" + ":" + "0000" + ":" + "0000" + ":" + "0000" + ":" + "0000" + ":" + "0000" + ":" + "0001"
         == "0000:0000:0000:0000:0000:0000:0000:0001"
  {
  }

  /** Eight groups joined. */
  lemma Join8(a: string, b: string, c: string, d: string, e: string, f: string, g: string, h: string, sep: string)
    ensures Join([a, b, c, d, e, f, g, h], sep)
         == a + sep + b + sep + c + sep + d + sep + e + sep + f + sep + g + sep + h
  {
    var gs := [a, b, c, d, e, f, g, h];
    assert gs[7..] == [h];
    JoinTail(gs, 6, sep);
    JoinTail(gs, 5, sep);
    JoinTail(gs, 4, sep);
    JoinTail(gs, 3, sep);
    JoinTail(gs, 2, sep);
    JoinTail(gs, 1, sep);
    JoinTail(gs, 0, sep);
    assert gs[0..] == gs;
  }

  /** The IPv6 loopback decodes to eight zero-padded groups, port 853. */
  lemma VectorIpv6()
    ensures DecodeAddress([0x05, 0x01, 0x00, 0x04] + LOOPBACK_V6 + [0x03, 0x55], 3)
         == Ok(Address(IPv6, "0000:0000:0000:0000:0000:0000:0000:0001", 853))
  {
    Be16IsBeBytes(853);
    V6Request(LOOPBACK_V6, 853);
    LoopbackV6Text();
  }

  lemma V6Request(o: seq<byte>, port: nat)
    requires |o| == 16 && port < 0x1_0000
    ensures DecodeAddress([0x05, 0x01, 0x00, 0x04] + o + BeBytes(port, 2), 3)
         == Ok(Address(IPv6, Ipv6Text(o), port))
  {
    var p := BeBytes(port, 2);
    assert EncodeDestination(V6(o, port)) == [ATYP_IPV6] + o + p;
    Regroup([0x05, 0x01, 0x00], [ATYP_IPV6], o, p);
    DecodeEncodedV6([0x05, 0x01, 0x00], o, port);
  }

  /** The domain vector: length 15, "one.one.one.one", port 853 read from
      the two octets right after the name. */
  lemma VectorDomain()
    ensures DecodeAddress([0x05, 0x01, 0x00, 0x03, 15] + EncodeAscii("one.one.one.one") + [0x03, 0x55], 3)
         == Ok(Address(DomainName, "one.one.one.one", 853))
  {
    Be16IsBeBytes(853);
    DomainRequest("one.one.one.one", 853);
  }

  lemma Regroup(a: seq<byte>, b: seq<byte>, c: seq<byte>, d: seq<byte>)
    ensures a + b + c + d == a + (b + c + d)
  {
  }

  /** A CONNECT request for a name decodes to the name and the port. */
  lemma DomainRequest(name: string, port: nat)
    requires |name| < 256 && port < 0x1_0000
    requires forall i :: 0 <= i < |name| ==> name[i] as int < 256
    ensures DecodeAddress([0x05, 0x01, 0x00, 0x03, |name|] + EncodeAscii(name) + BeBytes(port, 2), 3)
         == Ok(Address(DomainName, name, port))
  {
    var n := EncodeAscii(name);
    var p := BeBytes(port, 2);
    assert EncodeDestination(Domain(n, port)) == [ATYP_DOMAIN, |n|] + n + p;
    Regroup([0x05, 0x01, 0x00], [ATYP_DOMAIN, |n|], n, p);
    DecodeEncoded([0x05, 0x01, 0x00], Domain(n, port));
    TextRoundTrip(name);
  }
}
