/** upnp/ssdp.ts: the SSDP discovery request `search` sends and the
    header record `#parseResponse` makes of the first answer (the UPnP
    Device Architecture 1.1, sections 1.3.2 and 1.3.3). Sockets, the
    multicast send and the race between receivers are left out; the text
    of the answer is a parameter.
 */
module Ssdp {
  import opened Wrappers
  import opened Text
  import UpnpOs

  const SSDP_ADDR := "239.255.255.250"
  const SSDP_PORT: nat := 1900
  const SSDP_MX: nat := 3
  /** The default search target. */
  const SSDP_ST := "ssdp:all"
  const CRLF := "\r\n"

  const NO_HOSTNAMES := "SSDP must have one or more hostnames"

  // ---------------------------------------------------------------------
  // The constructor

  /** The addresses the constructor binds one datagram socket to: the
      given hostnames, or by default the local IPv4 interfaces; none at all
      is an error. */
  function Bind(hostnames: Option<seq<string>>, interfaces: seq<UpnpOs.Interface>): (r: Result<seq<string>>)
    ensures r.Err? ==> r.error == NO_HOSTNAMES
  {
    var hs := hostnames.GetOr(UpnpOs.DefaultHostnames(interfaces));
    if |hs| == 0 then Err(NO_HOSTNAMES) else Ok(hs)
  }

  /** The constructor fails exactly when there is nothing to bind to, and
      otherwise binds to every hostname in order. */
  lemma BindSpec(hostnames: Option<seq<string>>, interfaces: seq<UpnpOs.Interface>)
    ensures hostnames.Some? ==> Bind(hostnames, interfaces) == if hostnames.value == [] then Err(NO_HOSTNAMES) else Ok(hostnames.value)
    ensures hostnames.None? ==> (Bind(hostnames, interfaces).Ok? <==> UpnpOs.Ints(interfaces) != [])
    ensures hostnames.None? && Bind(hostnames, interfaces).Ok? ==>
              forall i :: 0 <= i < |Bind(hostnames, interfaces).value| ==>
                Bind(hostnames, interfaces).value[i] == UpnpOs.Ints(interfaces)[i].address
  {
  }

  // ---------------------------------------------------------------------
  // The M-SEARCH request

  /** The lines of the request, the two empty ones included. */
  function SearchLines(target: string): (ls: seq<string>)
    ensures |ls| == 7 && ls[5] == "" && ls[6] == ""
  {
    [ "M-SEARCH * HTTP/1.1",
      "HOST: " + SSDP_ADDR + ":" + NatToDecimal(SSDP_PORT),
      "MAN: \"ssdp:discover\"",
      "MX: " + NatToDecimal(SSDP_MX),
      "ST: " + target,
      "",
      "" ]
  }

  /** `search(searchTarget = 'ssdp:all')`: the message it sends. */
  function SearchMessage(target: Option<string>): string {
    Join(SearchLines(target.GetOr(SSDP_ST)), CRLF)
  }

  lemma PortAndMxText()
    ensures NatToDecimal(SSDP_PORT) == "1900"
    ensures NatToDecimal(SSDP_MX) == "3"
  {
    assert NatToDecimal(1900) == NatToDecimal(190) + "0";
    assert NatToDecimal(190) == NatToDecimal(19) + "0";
    assert NatToDecimal(19) == NatToDecimal(1) + "9";
  }

  /** The request up to the search target. */
  const SEARCH_HEAD := "M-SEARCH * HTTP/1.1" + CRLF + "HOST: 239.255.255.250:1900" + CRLF
                       + "MAN: \"ssdp:discover\"" + CRLF + "MX: 3" + CRLF + "ST: "

  /** The request as the protocol writes it: five header lines, each ended
      by CRLF, then the empty line. */
  lemma SearchMessageText(target: string)
    ensures SearchMessage(Some(target)) == SEARCH_HEAD + target + "\r\n\r\n"
  {
    PortAndMxText();
    var host := "HOST: " + SSDP_ADDR + ":" + NatToDecimal(SSDP_PORT);
    var mx := "MX: " + NatToDecimal(SSDP_MX);
    assert host == "HOST: 239.255.255.250:1900";
    assert mx == "MX: 3";
    JoinSeven("M-SEARCH * HTTP/1.1", host, "MAN: \"ssdp:discover\"", mx, "ST: " + target, CRLF);
    Flatten4("M-SEARCH * HTTP/1.1", host, "MAN: \"ssdp:discover\"", mx, CRLF, "ST: " + target + CRLF + CRLF);
    var p := "M-SEARCH * HTTP/1.1" + CRLF + host + CRLF + "MAN: \"ssdp:discover\"" + CRLF + mx + CRLF;
    assert p + "ST: " == SEARCH_HEAD;
    ConcatAssoc(p, "ST: ", target);
    ConcatAssoc(p + "ST: " + target, CRLF, CRLF);
  }

  lemma JoinSeven(a: string, b: string, c: string, d: string, e: string, sep: string)
    ensures Join([a, b, c, d, e, "", ""], sep) == a + sep + (b + sep + (c + sep + (d + sep + (e + sep + sep))))
  {
    var ls := [a, b, c, d, e, "", ""];
    JoinStep(ls, 5, sep);
    assert ls[5..][1..] == [""];
    JoinStep(ls, 4, sep);
    JoinStep(ls, 3, sep);
    JoinStep(ls, 2, sep);
    JoinStep(ls, 1, sep);
    JoinStep(ls, 0, sep);
    assert ls[0..] == ls;
  }

  /** One step of a join: the piece at `k`, the separator, the rest. */
  lemma JoinStep(ls: seq<string>, k: nat, sep: string)
    requires k + 1 < |ls|
    ensures Join(ls[k..], sep) == ls[k] + sep + Join(ls[k + 1..], sep)
  {
    assert ls[k..][1..] == ls[k + 1..];
  }

  /** Four pieces each followed by the separator, grouped to the right,
      read as one flat string. */
  lemma Flatten4(x1: string, x2: string, x3: string, x4: string, sep: string, t: string)
    ensures x1 + sep + (x2 + sep + (x3 + sep + (x4 + sep + t))) == x1 + sep + x2 + sep + x3 + sep + x4 + sep + t
  {
    ConcatAssoc(x3 + sep, x4 + sep, t);
    ConcatAssoc(x2 + sep, x3 + sep + x4 + sep, t);
    ConcatAssoc(x1 + sep, x2 + sep + x3 + sep + x4 + sep, t);
  }

  /** Without a target the request searches for every device and service. */
  lemma DefaultTarget()
    ensures SearchMessage(None) == SearchMessage(Some("ssdp:all"))
  {
  }

  /** A receiver that splits the request at CRLF gets its lines back,
      provided the target holds no carriage return. */
  lemma SearchLinesRecovered(target: string)
    requires '\r' !in target
    ensures Split(SearchMessage(Some(target)), CRLF) == SearchLines(target)
  {
    var ls := SearchLines(target);
    PortAndMxText();
    forall i | 0 <= i < |ls| - 1
      ensures CRLF[0] !in ls[i]
    {
      assert ls[4] == "ST: " + target;
    }
    assert Free(ls[6], CRLF);
    SplitJoin(ls, CRLF);
  }

  // ---------------------------------------------------------------------
  // The response

  /** The header record: JavaScript stores `undefined` under a key when a
      destructured piece is missing, so every value is optional. */
  type Headers = map<string, Option<string>>

  /** The piece at `i`, or `undefined` past the end. */
  function Piece(ps: seq<string>, i: nat): (r: Option<string>)
    ensures r.Some? <==> i < |ps|
  {
    if i < |ps| then Some(ps[i]) else None
  }

  /** The status line split at single spaces, under `version`,
      `statusCode` and `statusMessage`. */
  function StatusFields(statusLine: string): (h: Headers)
    ensures h.Keys == {"version", "statusCode", "statusMessage"}
  {
    var ps := Split(statusLine, " ");
    map["version" := Piece(ps, 0), "statusCode" := Piece(ps, 1), "statusMessage" := Piece(ps, 2)]
  }

  /** The key a header line is stored under: the text before the first
      `": "`, lower-cased. */
  function HeaderName(line: string): string {
    ToLower(Split(line, ": ")[0])
  }

  /** The value a header line stores: the text between the first `": "`
      and the next one, or `undefined` when the line has none. */
  function HeaderValue(line: string): Option<string> {
    Piece(Split(line, ": "), 1)
  }

  /** The `for ... of` loop over the header lines: it stops at the first
      empty line; each line overwrites what an earlier one stored under the
      same key. */
  function AddHeaders(h: Headers, lines: seq<string>): (r: Headers)
    ensures h.Keys <= r.Keys
    decreases |lines|
  {
    if |lines| == 0 || lines[0] == "" then h
    else AddHeaders(h[HeaderName(lines[0]) := HeaderValue(lines[0])], lines[1..])
  }

  /** `#parseResponse` on the lines of the response. */
  function ParseLines(lines: seq<string>): (h: Headers)
    requires |lines| >= 1
    ensures {"version", "statusCode", "statusMessage"} <= h.Keys
  {
    AddHeaders(StatusFields(lines[0]), lines[1..])
  }

  /** `#parseResponse(response)`. */
  function ParseResponse(response: string): Headers {
    ParseLines(Split(response, CRLF))
  }

  // ---------------------------------------------------------------------
  // Properties of the response parser

  /** The header lines the loop reads: those before the first empty line. */
  function HeaderBlock(lines: seq<string>): (b: seq<string>)
    ensures |b| <= |lines| && b == lines[..|b|]
    ensures forall i :: 0 <= i < |b| ==> b[i] != ""
    ensures |b| < |lines| ==> lines[|b|] == ""
    decreases |lines|
  {
    if |lines| == 0 || lines[0] == "" then [] else [lines[0]] + HeaderBlock(lines[1..])
  }

  /** The loop reads exactly the header block: what follows the first empty
      line changes nothing. */
  lemma {:induction false} OnlyHeaderBlock(h: Headers, lines: seq<string>)
    ensures AddHeaders(h, lines) == AddHeaders(h, HeaderBlock(lines))
    decreases |lines|
  {
    if |lines| > 0 && lines[0] != "" {
      var b := HeaderBlock(lines);
      assert b[0] == lines[0] && b[1..] == HeaderBlock(lines[1..]);
      OnlyHeaderBlock(h[HeaderName(lines[0]) := HeaderValue(lines[0])], lines[1..]);
    }
  }

  /** The last line of `lines` stored under `key`, if any. */
  function LastWith(lines: seq<string>, key: string): (r: Option<nat>)
    ensures r.Some? ==> r.value < |lines| && HeaderName(lines[r.value]) == key
    ensures r.Some? ==> forall j :: r.value < j < |lines| ==> HeaderName(lines[j]) != key
    ensures r.None? ==> forall j :: 0 <= j < |lines| ==> HeaderName(lines[j]) != key
    decreases |lines|
  {
    if |lines| == 0 then None
    else if HeaderName(lines[|lines| - 1]) == key then Some(|lines| - 1)
    else LastWith(lines[..|lines| - 1], key)
  }

  /** Adding header lines without empty ones: a key holds the value of the
      last line stored under it, and keeps its old value when no line is. */
  lemma {:induction false} AddHeadersSpec(h: Headers, lines: seq<string>, key: string)
    requires forall i :: 0 <= i < |lines| ==> lines[i] != ""
    ensures key in AddHeaders(h, lines) <==> key in h || LastWith(lines, key).Some?
    ensures LastWith(lines, key).Some? ==>
              AddHeaders(h, lines)[key] == HeaderValue(lines[LastWith(lines, key).value])
    ensures LastWith(lines, key).None? && key in h ==> AddHeaders(h, lines)[key] == h[key]
    decreases |lines|
  {
    if |lines| > 0 {
      var n := |lines| - 1;
      var init := lines[..n];
      AddHeadersSnoc(h, init, lines[n]);
      assert init + [lines[n]] == lines;
      AddHeadersSpec(h, init, key);
      if HeaderName(lines[n]) != key {
        assert LastWith(lines, key) == LastWith(init, key);
      }
    }
  }

  /** One more line at the end of the block is one more update at the end. */
  lemma {:induction false} AddHeadersSnoc(h: Headers, lines: seq<string>, line: string)
    requires forall i :: 0 <= i < |lines| ==> lines[i] != ""
    requires line != ""
    ensures AddHeaders(h, lines + [line]) == AddHeaders(h, lines)[HeaderName(line) := HeaderValue(line)]
    decreases |lines|
  {
    if |lines| == 0 {
      assert lines + [line] == [line];
    } else {
      assert (lines + [line])[0] == lines[0];
      assert (lines + [line])[1..] == lines[1..] + [line];
      AddHeadersSnoc(h[HeaderName(lines[0]) := HeaderValue(lines[0])], lines[1..], line);
    }
  }

  /** What a response yields under any key: the last header line of the
      block stored under it; failing that, the status-line field of that
      name; failing that, nothing. */
  lemma ParseLinesSpec(lines: seq<string>, key: string)
    requires |lines| >= 1
    ensures var block := HeaderBlock(lines[1..]);
            var h := ParseLines(lines);
            && (key in h <==> key in {"version", "statusCode", "statusMessage"} || LastWith(block, key).Some?)
            && (LastWith(block, key).Some? ==> h[key] == HeaderValue(block[LastWith(block, key).value]))
            && (LastWith(block, key).None? && key in {"version", "statusCode", "statusMessage"} ==>
                  h[key] == StatusFields(lines[0])[key])
  {
    OnlyHeaderBlock(StatusFields(lines[0]), lines[1..]);
    AddHeadersSpec(StatusFields(lines[0]), HeaderBlock(lines[1..]), key);
  }

  /** A header whose name is `Version` in any case replaces the version
      taken from the status line. */
  lemma VersionOverwritten(statusLine: string, value: string)
    ensures ParseLines([statusLine, "VERSION: " + value, ""])["version"] == HeaderValue("VERSION: " + value)
  {
    var line := "VERSION: " + value;
    assert "VERSION" + ": " + value == line;
    NameOfHeader("VERSION", value);
    assert ToLower("VERSION") == "version";
    assert HeaderName(line) == "version";
    assert line[0] == 'V';
    var h := StatusFields(statusLine)["version" := HeaderValue(line)];
    assert [statusLine, line, ""][1..] == [line, ""];
    assert AddHeaders(StatusFields(statusLine), [line, ""]) == AddHeaders(h, [line, ""][1..]);
    assert [line, ""][1..] == [""];
  }

  // ---------------------------------------------------------------------
  // A response as a device writes it

  /** `name: value` with a name free of colons and a value free of `": "`. */
  predicate WellFormedHeader(name: string, value: string) {
    ':' !in name && '\r' !in name && '\r' !in value && Free(value, ": ") && name != ""
  }

  /** Splitting `name: value` at `": "` gives the name and the value. */
  lemma NameOfHeader(name: string, value: string)
    requires ':' !in name
    ensures Split(name + ": " + value, ": ")[0] == name
    ensures Free(value, ": ") ==> Split(name + ": " + value, ": ") == [name, value]
  {
    SplitAfter(name, ": ", value);
    if Free(value, ": ") {
      SplitFree(value, ": ");
    }
  }

  /** The value ends at the next `": "`: a value holding one is cut there. */
  lemma ValueCut(name: string, v1: string, v2: string)
    requires ':' !in name && ':' !in v1
    ensures HeaderValue(name + ": " + v1 + ": " + v2) == Some(v1)
  {
    var line := name + ": " + (v1 + ": " + v2);
    assert name + ": " + v1 + ": " + v2 == line;
    SplitAfter(name, ": ", v1 + ": " + v2);
    SplitAfter(v1, ": ", v2);
  }

  /** The line `name: value`. */
  function HeaderLine(name: string, value: string): string {
    name + ": " + value
  }

  /** The header lines of a response. */
  function HeaderLines(names: seq<string>, values: seq<string>): (ls: seq<string>)
    requires |names| == |values|
    ensures |ls| == |names|
    ensures forall i :: 0 <= i < |ls| ==> ls[i] == HeaderLine(names[i], values[i])
  {
    seq(|names|, i requires 0 <= i < |names| => HeaderLine(names[i], values[i]))
  }

  /** A response made of a status line, well-formed headers with distinct
      lower-cased names other than `version`, an empty line and any body is
      read back as the status fields plus every header under its
      lower-cased name. */
  lemma ResponseRoundTrip(statusLine: string, names: seq<string>, values: seq<string>, body: string)
    requires |names| == |values| && '\r' !in statusLine
    requires forall i :: 0 <= i < |names| ==> WellFormedHeader(names[i], values[i])
    requires forall i, j :: 0 <= i < j < |names| ==> ToLower(names[i]) != ToLower(names[j])
    requires forall i :: 0 <= i < |names| ==> ToLower(names[i]) != "version"
    ensures var h := ParseResponse(Join([statusLine] + HeaderLines(names, values) + ["", body], CRLF));
            && (forall i :: 0 <= i < |names| ==> ToLower(names[i]) in h && h[ToLower(names[i])] == Some(values[i]))
            && h["version"] == StatusFields(statusLine)["version"]
            && h["statusCode"] == StatusFields(statusLine)["statusCode"]
            && h["statusMessage"] == StatusFields(statusLine)["statusMessage"]
  {
    var hl := HeaderLines(names, values);
    var keys := seq(|names|, k requires 0 <= k < |names| => ToLower(names[k]));
    var lines := Split(Join([statusLine] + hl + ["", body], CRLF), CRLF);
    forall i | 0 <= i < |hl|
      ensures '\r' !in hl[i] && hl[i] != ""
      ensures HeaderName(hl[i]) == keys[i] && HeaderValue(hl[i]) == Some(values[i])
    {
      assert hl[i] == names[i] + ": " + values[i];
      assert hl[i][|names[i]|] == ':';
      NameOfHeader(names[i], values[i]);
    }
    ResponseLines(statusLine, hl, body);
    assert lines[1..] == hl + ([""] + Split(body, CRLF));
    BlockBeforeEmpty(hl, Split(body, CRLF));
    ParsedHeaders(lines, keys, values);
    StatusKept(lines);
  }

  /** A header block whose keys are distinct and not `version` is read as
      one entry per line, and the status line's version survives. */
  lemma ParsedHeaders(lines: seq<string>, keys: seq<string>, values: seq<string>)
    requires |lines| >= 1 && |keys| == |values|
    requires |HeaderBlock(lines[1..])| == |keys|
    requires forall k :: 0 <= k < |keys| ==> HeaderName(HeaderBlock(lines[1..])[k]) == keys[k]
    requires forall k :: 0 <= k < |keys| ==> HeaderValue(HeaderBlock(lines[1..])[k]) == Some(values[k])
    requires forall i, j :: 0 <= i < j < |keys| ==> keys[i] != keys[j]
    requires forall k :: 0 <= k < |keys| ==> keys[k] != "version"
    ensures forall i :: 0 <= i < |keys| ==> keys[i] in ParseLines(lines) && ParseLines(lines)[keys[i]] == Some(values[i])
    ensures ParseLines(lines)["version"] == StatusFields(lines[0])["version"]
  {
    var block := HeaderBlock(lines[1..]);
    forall i | 0 <= i < |keys|
      ensures keys[i] in ParseLines(lines) && ParseLines(lines)[keys[i]] == Some(values[i])
    {
      LastWithUnique(block, keys, i);
      ParseLinesSpec(lines, keys[i]);
    }
    ParseLinesSpec(lines, "version");
    assert LastWith(block, "version").None?;
  }

  /** Splitting the joined response at CRLF gives the status line, the
      header lines and the empty line back, followed by the body's own
      lines. */
  lemma ResponseLines(statusLine: string, hl: seq<string>, body: string)
    requires '\r' !in statusLine && forall i :: 0 <= i < |hl| ==> '\r' !in hl[i]
    ensures Split(Join([statusLine] + hl + ["", body], CRLF), CRLF)
         == [statusLine] + hl + ([""] + Split(body, CRLF))
  {
    var init := [statusLine] + hl + [""];
    var parts := init + [body];
    assert [statusLine] + hl + ["", body] == parts;
    forall i | 0 <= i < |parts| - 1
      ensures CRLF[0] !in parts[i]
    {
      if 1 <= i <= |hl| {
        assert parts[i] == hl[i - 1];
      }
    }
    SplitJoinPrefix(parts, CRLF);
    InitLast(parts);
    assert parts[..|parts| - 1] == init;
    ConcatAssoc([statusLine] + hl, [""], Split(body, CRLF));
  }

  /** The header block ends at the empty line that follows the headers. */
  lemma {:induction false} BlockBeforeEmpty(hl: seq<string>, rest: seq<string>)
    requires forall i :: 0 <= i < |hl| ==> hl[i] != ""
    ensures HeaderBlock(hl + ([""] + rest)) == hl
    decreases |hl|
  {
    if |hl| == 0 {
      assert hl + ([""] + rest) == [""] + rest;
    } else {
      assert (hl + ([""] + rest))[1..] == hl[1..] + ([""] + rest);
      BlockBeforeEmpty(hl[1..], rest);
      assert hl == [hl[0]] + hl[1..];
    }
  }

  /** With distinct keys, line `i` is the last one stored under its key. */
  lemma LastWithUnique(block: seq<string>, keys: seq<string>, i: nat)
    requires |block| == |keys| && i < |keys|
    requires forall k :: 0 <= k < |keys| ==> HeaderName(block[k]) == keys[k]
    requires forall k, j :: 0 <= k < j < |keys| ==> keys[k] != keys[j]
    ensures LastWith(block, keys[i]) == Some(i)
  {
    var r := LastWith(block, keys[i]);
    assert HeaderName(block[i]) == keys[i];
    assert r.Some?;
    assert keys[r.value] == keys[i];
  }

  /** A lower-cased string never equals a key with a capital letter. */
  lemma NoCapitalKey(s: string, key: string, k: nat)
    requires k < |key| && 'A' <= key[k] <= 'Z'
    ensures ToLower(s) != key
  {
    if |s| == |key| {
      assert !('A' <= ToLower(s)[k] <= 'Z');
    }
  }

  /** No header line is stored under a key with a capital letter. */
  lemma NoLineWithCapital(lines: seq<string>, key: string, k: nat)
    requires k < |key| && 'A' <= key[k] <= 'Z'
    ensures LastWith(lines, key).None?
  {
    forall j | 0 <= j < |lines|
      ensures HeaderName(lines[j]) != key
    {
      NoCapitalKey(Split(lines[j], ": ")[0], key, k);
    }
  }

  /** `statusCode` and `statusMessage` hold capitals, which a lower-cased
      header name never does: the status line's code and message always
      survive. */
  lemma StatusKept(lines: seq<string>)
    requires |lines| >= 1
    ensures ParseLines(lines)["statusCode"] == StatusFields(lines[0])["statusCode"]
    ensures ParseLines(lines)["statusMessage"] == StatusFields(lines[0])["statusMessage"]
  {
    var block := HeaderBlock(lines[1..]);
    ParseLinesSpec(lines, "statusCode");
    ParseLinesSpec(lines, "statusMessage");
    NoLineWithCapital(block, "statusCode", 6);
    NoLineWithCapital(block, "statusMessage", 6);
  }
}
