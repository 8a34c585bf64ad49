/** upnp/os.ts: which interface addresses count as local, and the list of
    local IPv4 interfaces SSDP binds to by default. The interface list
    `Deno.networkInterfaces()` returns is a parameter.
 */
module UpnpOs {
  import opened Text

  datatype Family = IPv4 | IPv6

  /** The fields of `Deno.NetworkInterfaceInfo` the filter reads. */
  datatype Interface = Interface(family: Family, address: string)

  /** `isLocalAddr`: a private-looking prefix, or the loopback address
      itself. */
  predicate IsLocalAddr(address: string) {
    || StartsWith(address, "192.168.")
    || StartsWith(address, "172.")
    || StartsWith(address, "10.")
    || address == "127.0.0.1"
  }

  /** `ints`: the IPv4 interfaces whose address is local, in the order the
      system lists them. */
  function Ints(all: seq<Interface>): (r: seq<Interface>)
    ensures |r| <= |all|
    decreases |all|
  {
    if |all| == 0 then []
    else
      var first := if all[0].family == IPv4 && IsLocalAddr(all[0].address) then [all[0]] else [];
      first + Ints(all[1..])
  }

  /** The interface addresses SSDP binds to when given no hostnames. */
  function DefaultHostnames(all: seq<Interface>): (hs: seq<string>)
    ensures |hs| == |Ints(all)|
    ensures forall i :: 0 <= i < |hs| ==> hs[i] == Ints(all)[i].address
  {
    seq(|Ints(all)|, i requires 0 <= i < |Ints(all)| => Ints(all)[i].address)
  }

  // ---------------------------------------------------------------------
  // Properties

  /** An interface is kept exactly when it is IPv4 and local. */
  lemma {:induction false} IntsMembership(all: seq<Interface>, x: Interface)
    ensures x in Ints(all) <==> x in all && x.family == IPv4 && IsLocalAddr(x.address)
    decreases |all|
  {
    if |all| > 0 {
      IntsMembership(all[1..], x);
      assert all == [all[0]] + all[1..];
    }
  }

  /** Filtering distributes over concatenation: what is kept keeps its
      relative order. */
  lemma {:induction false} IntsAppend(a: seq<Interface>, b: seq<Interface>)
    ensures Ints(a + b) == Ints(a) + Ints(b)
    decreases |a|
  {
    if |a| == 0 {
      assert a + b == b;
    } else {
      assert (a + b)[1..] == a[1..] + b;
      IntsAppend(a[1..], b);
    }
  }

  /** Filtering a filtered list changes nothing. */
  lemma {:induction false} IntsIdempotent(all: seq<Interface>)
    ensures Ints(Ints(all)) == Ints(all)
    decreases |all|
  {
    if |all| > 0 {
      var first := if all[0].family == IPv4 && IsLocalAddr(all[0].address) then [all[0]] else [];
      IntsAppend(first, Ints(all[1..]));
      IntsIdempotent(all[1..]);
      if first != [] {
        assert first[1..] == [];
      }
    }
  }

  /** Every address under 172. counts, not only the private block
      172.16.0.0/12 of RFC 1918. */
  lemma AnyOneSevenTwo(rest: string)
    ensures IsLocalAddr("172." + rest)
  {
    assert ("172." + rest)[..4] == "172.";
  }

  /** What the first octets of a local address look like. */
  lemma LocalShape(a: string)
    requires IsLocalAddr(a)
    ensures |a| >= 3 && a[0] == '1'
    ensures a[1] == '9' || a[1] == '7' || (a[1] == '0' && a[2] == '.') || a == "127.0.0.1"
  {
    if StartsWith(a, "192.168.") {
      assert a[..8] == "192.168.";
      assert a[0] == a[..8][0] && a[1] == a[..8][1];
    } else if StartsWith(a, "172.") {
      assert a[..4] == "172.";
      assert a[0] == a[..4][0] && a[1] == a[..4][1];
    } else if StartsWith(a, "10.") {
      assert a[..3] == "10.";
      assert a[0] == a[..3][0] && a[1] == a[..3][1] && a[2] == a[..3][2];
    }
  }

  /** The loopback address counts only when it is exactly 127.0.0.1:
      another 127. address is not local. */
  lemma LoopbackExact()
    ensures IsLocalAddr("127.0.0.1")
    ensures !IsLocalAddr("127.0.0.2")
    ensures !IsLocalAddr("127.0.0.10")
  {
    if IsLocalAddr("127.0.0.2") {
      LocalShape("127.0.0.2");
    }
    if IsLocalAddr("127.0.0.10") {
      LocalShape("127.0.0.10");
    }
  }

  /** Public and IPv6 addresses are not local; neither is the shared
      address space 100.64.0.0/10, which also starts with "10". */
  lemma NotLocal()
    ensures !IsLocalAddr("8.8.8.8")
    ensures !IsLocalAddr("::1")
    ensures !IsLocalAddr("100.64.0.1")
  {
    if IsLocalAddr("8.8.8.8") {
      LocalShape("8.8.8.8");
    }
    if IsLocalAddr("::1") {
      LocalShape("::1");
    }
    if IsLocalAddr("100.64.0.1") {
      LocalShape("100.64.0.1");
    }
  }
}
