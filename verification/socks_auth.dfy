/** The helpers of socks/utils.ts: the RFC 1929 username/password request
    parser and the restrict-local predicate on the dialled peer's hostname.
 */
module Socks5Auth {
  import opened Wrappers
  import opened Bytes
  import opened Text

  datatype Credentials = Credentials(username: string, password: string)

  /** `parseAuthPassword(buf)` on a chunk that is its whole buffer.

      The username is the `buf[1]` octets from index 2, the password length
      is the octet right after them and the password follows it. Each
      `new Uint8Array(buffer, offset, length)` past the end of the buffer
      throws; a missing length octet reads as `undefined`, which makes the
      view run to the end of the buffer, and its offset is then already past
      the end. The sub-negotiation version, octet 0, is never looked at. */
  function ParseAuthPassword(buf: seq<byte>): (r: Result<Credentials>)
    ensures r.Ok? <==> 2 <= |buf| && 3 + buf[1] <= |buf| && 3 + buf[1] + buf[2 + buf[1]] <= |buf|
    ensures r.Err? ==> r.error == RANGE_ERROR
  {
    if |buf| < 2 then Err(RANGE_ERROR)
    else
      var ulen := buf[1];
      if 3 + ulen > |buf| then Err(RANGE_ERROR)
      else
        var plen := buf[2 + ulen];
        if 3 + ulen + plen > |buf| then Err(RANGE_ERROR)
        else Ok(Credentials(DecodeAscii(buf[2..2 + ulen]), DecodeAscii(buf[3 + ulen..3 + ulen + plen])))
  }

  /** The request a client sends, built as socks/socks5-proto.ts does:
      version 0x01, `ULEN UNAME PLEN PASSWD`. */
  function EncodeAuthRequest(username: seq<byte>, password: seq<byte>): (r: seq<byte>)
    requires |username| < 256 && |password| < 256
    ensures |r| == 3 + |username| + |password|
  {
    [0x01, |username|] + username + [|password|] + password
  }

  /** Parsing a built request gives back the username and the password. */
  lemma AuthRoundTrip(username: seq<byte>, password: seq<byte>)
    requires |username| < 256 && |password| < 256
    ensures ParseAuthPassword(EncodeAuthRequest(username, password))
         == Ok(Credentials(DecodeAscii(username), DecodeAscii(password)))
  {
    var b := EncodeAuthRequest(username, password);
    var u := |username|;
    assert b[1] == u;
    assert b[2 + u] == |password|;
    assert b[2..2 + u] == username;
    assert b[3 + u..3 + u + |password|] == password;
  }

  /** Octets after the password are ignored. */
  lemma AuthTrailingIgnored(username: seq<byte>, password: seq<byte>, extra: seq<byte>)
    requires |username| < 256 && |password| < 256
    ensures ParseAuthPassword(EncodeAuthRequest(username, password) + extra)
         == Ok(Credentials(DecodeAscii(username), DecodeAscii(password)))
  {
    var b := EncodeAuthRequest(username, password) + extra;
    var u := |username|;
    assert b[1] == u;
    assert b[2 + u] == |password|;
    assert b[2..2 + u] == username;
    assert b[3 + u..3 + u + |password|] == password;
  }

  /** The version octet is never checked: any value parses the same. */
  lemma AuthVersionIgnored(v: byte, w: byte, rest: seq<byte>)
    ensures ParseAuthPassword([v] + rest) == ParseAuthPassword([w] + rest)
  {
    var a := [v] + rest;
    var b := [w] + rest;
    assert a[1..] == b[1..];
    if |a| >= 2 {
      assert a[1] == b[1];
      var u := a[1];
      if 3 + u <= |a| {
        assert a[2 + u] == b[2 + u];
        assert a[2..2 + u] == b[2..2 + u];
        var p := a[2 + u];
        if 3 + u + p <= |a| {
          assert a[3 + u..3 + u + p] == b[3 + u..3 + u + p];
        }
      }
    }
  }

  /** Declared lengths beyond the chunk raise a RangeError. */
  lemma AuthTruncated(username: seq<byte>, password: seq<byte>, cut: nat)
    requires |username| < 256 && |password| < 256
    requires cut < 3 + |username| + |password|
    ensures ParseAuthPassword(EncodeAuthRequest(username, password)[..cut]) == Err(RANGE_ERROR)
  {
    var b := EncodeAuthRequest(username, password)[..cut];
    if |b| >= 2 {
      assert b[1] == |username|;
      if 3 + |username| <= |b| {
        assert b[2 + |username|] == |password|;
      }
    }
  }

  /** `[0x01, 4, "test", 4, "test"]` decodes to username "test" and password "test". */
  lemma VectorTestTest()
    ensures ParseAuthPassword([0x01, 4] + EncodeAscii("test") + [4] + EncodeAscii("test"))
         == Ok(Credentials("test", "test"))
  {
    var t := EncodeAscii("test");
    AuthRoundTrip(t, t);
    assert DecodeAscii(t) == "test";
  }

  // ---------------------------------------------------------------------
  // Restrict-local policy

  /** `isLocalAddr` of socks/utils.ts, applied to the dialled peer's
      hostname: a prefix test against '192.168.' and '127.0.0.1'. */
  predicate IsLocalPeer(hostname: string) {
    StartsWith(hostname, "192.168.") || StartsWith(hostname, "127.0.0.1")
  }

  /** Both listed prefixes count, and so does anything that merely starts
      with '127.0.0.1'; the other private and loopback ranges do not. */
  lemma LocalPeerExamples()
    ensures IsLocalPeer("192.168.1.10")
    ensures IsLocalPeer("127.0.0.1")
    ensures IsLocalPeer("127.0.0.10")
    ensures !IsLocalPeer("127.0.0.2")
    ensures !IsLocalPeer("10.0.0.1")
    ensures !IsLocalPeer("172.16.0.1")
    ensures !IsLocalPeer("::1")
  {
    assert "192.168.1.10"[..8] == "192.168.";
    assert "127.0.0.10"[..9] == "127.0.0.1";
    assert "127.0.0.2"[..9][8] != "127.0.0.1"[8];
    assert "127.0.0.2"[..8][1] != "192.168."[1];
    assert "10.0.0.1"[..8][1] != "192.168."[1];
    assert "172.16.0.1"[..9][1] != "127.0.0.1"[1];
    assert "172.16.0.1"[..8][1] != "192.168."[1];
  }

  /** Extending a local hostname keeps it local: the test is on prefixes only. */
  lemma LocalPeerPrefixClosed(hostname: string, suffix: string)
    requires IsLocalPeer(hostname)
    ensures IsLocalPeer(hostname + suffix)
  {
    var h := hostname + suffix;
    if StartsWith(hostname, "192.168.") {
      assert h[..8] == hostname[..8];
    } else {
      assert h[..9] == hostname[..9];
    }
  }
}
