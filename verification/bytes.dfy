/** Byte-level vocabulary shared by the four codecs: octets, big-endian
    integers as `DataView.getUint16`/`getBigUint64` read them, the clamping
    of `Uint8Array.subarray`, and octet XOR.
 */
module Bytes {

  /** One octet, the element type of a `Uint8Array`. */
  type byte = x: int | 0 <= x < 256

  /** What a `DataView` read or a typed-array view past the end of its
      buffer throws. */
  const RANGE_ERROR := "RangeError"

  /** What a property read on `null`, or a call on a released writer, throws. */
  const TYPE_ERROR := "TypeError"

  /** 256 to the power `w`: one more than the largest `w`-octet value. */
  function Pow256(w: nat): (r: nat)
    ensures r >= 1
  {
    if w == 0 then 1 else 256 * Pow256(w - 1)
  }

  /** The unsigned big-endian value of `s` (network byte order). */
  function BeValue(s: seq<byte>): (r: nat)
    ensures r < Pow256(|s|)
  {
    if |s| == 0 then 0 else BeValue(s[..|s| - 1]) * 256 + s[|s| - 1]
  }

  /** The `w`-octet big-endian encoding of `n`. */
  function BeBytes(n: nat, w: nat): (r: seq<byte>)
    requires n < Pow256(w)
    ensures |r| == w
  {
    if w == 0 then [] else BeBytes(n / 256, w - 1) + [n % 256]
  }

  /** Decoding an encoding gives the number back. */
  lemma {:induction false} BeValueOfBeBytes(n: nat, w: nat)
    requires n < Pow256(w)
    ensures BeValue(BeBytes(n, w)) == n
  {
    if w > 0 {
      var r := BeBytes(n, w);
      assert r[..w - 1] == BeBytes(n / 256, w - 1);
      BeValueOfBeBytes(n / 256, w - 1);
    }
  }

  /** Encoding a decoded value gives the octets back. */
  lemma {:induction false} BeBytesOfBeValue(s: seq<byte>)
    ensures BeBytes(BeValue(s), |s|) == s
  {
    if |s| > 0 {
      var init := s[..|s| - 1];
      BeBytesOfBeValue(init);
      assert BeValue(s) / 256 == BeValue(init);
      assert BeValue(s) % 256 == s[|s| - 1];
      assert s == init + [s[|s| - 1]];
    }
  }

  /** Two octets read as `DataView.getUint16` does (big-endian). */
  function U16(hi: byte, lo: byte): (r: nat)
    ensures r < 0x1_0000
  {
    hi * 256 + lo
  }

  /** The two octets are the high and the low half of the value. */
  lemma U16Parts(hi: byte, lo: byte)
    ensures U16(hi, lo) / 256 == hi && U16(hi, lo) % 256 == lo
  {
  }

  /** A 16-bit value written big-endian reads back with `getUint16`. */
  lemma U16OfBeBytes(p: nat)
    requires p < 0x1_0000
    ensures BeBytes(p, 2) == [p / 256, p % 256]
    ensures U16(BeBytes(p, 2)[0], BeBytes(p, 2)[1]) == p
  {
    assert Pow256(2) == 0x1_0000;
    assert BeBytes(p, 2) == BeBytes(p / 256, 1) + [p % 256];
    assert BeBytes(p / 256, 1) == BeBytes(p / 256 / 256, 0) + [(p / 256) % 256];
  }

  /** `DataView.setUint16`: a 16-bit value as two octets, big-endian. */
  function Be16(v: nat): (r: seq<byte>)
    requires v < 0x1_0000
    ensures |r| == 2 && U16(r[0], r[1]) == v
  {
    [v / 256, v % 256]
  }

  /** Two octets written with `setUint16` are the general big-endian
      encoding at width two. */
  lemma Be16IsBeBytes(v: nat)
    requires v < 0x1_0000
    ensures Be16(v) == BeBytes(v, 2)
  {
    U16OfBeBytes(v);
  }

  /** `buf[i]` inside a bitwise expression: an index past the end reads
      `undefined`, which the bitwise operators coerce to 0. */
  function At(s: seq<byte>, i: nat): (r: byte)
    ensures i < |s| ==> r == s[i]
    ensures i >= |s| ==> r == 0
  {
    if i < |s| then s[i] else 0
  }

  /** `s.subarray(a, b)` for non-negative `a` and `b`: both bounds are
      clamped to the length and an inverted range is empty. */
  function Sub(s: seq<byte>, a: nat, b: nat): (r: seq<byte>)
    ensures a <= b <= |s| ==> r == s[a..b]
    ensures a <= |s| <= b ==> r == s[a..]
    ensures |r| <= |s|
    ensures |s| <= a || b <= a ==> r == []
  {
    var start := if a < |s| then a else |s|;
    var end := if b < |s| then b else |s|;
    if end <= start then [] else s[start..end]
  }

  /** 2 to the power `k`. */
  function Pow2(k: nat): (r: nat)
    ensures r >= 1
  {
    if k == 0 then 1 else 2 * Pow2(k - 1)
  }

  /** Bitwise XOR of the low `k` bits of `a` and `b`, bit by bit from the
      least significant one. */
  function XorBits(a: nat, b: nat, k: nat): (r: nat)
    ensures r < Pow2(k)
  {
    if k == 0 then 0
    else 2 * XorBits(a / 2, b / 2, k - 1) + (if a % 2 == b % 2 then 0 else 1)
  }

  /** Octet XOR, the `^` of two values below 256. */
  function Xor(a: byte, b: byte): byte
  {
    assert Pow2(8) == 256;
    XorBits(a, b, 8)
  }

  lemma {:induction false} XorBitsTwice(a: nat, b: nat, k: nat)
    requires a < Pow2(k)
    ensures XorBits(XorBits(a, b, k), b, k) == a
  {
    if k > 0 {
      var x := XorBits(a, b, k);
      var rest := XorBits(a / 2, b / 2, k - 1);
      assert x / 2 == rest && x % 2 == (if a % 2 == b % 2 then 0 else 1);
      XorBitsTwice(a / 2, b / 2, k - 1);
    }
  }

  lemma {:induction false} XorBitsZero(a: nat, k: nat)
    requires a < Pow2(k)
    ensures XorBits(a, 0, k) == a
  {
    if k > 0 {
      XorBitsZero(a / 2, k - 1);
    }
  }

  /** XOR with the same key twice is the identity. */
  lemma XorTwice(a: byte, key: byte)
    ensures Xor(Xor(a, key), key) == a
  {
    assert Pow2(8) == 256;
    XorBitsTwice(a, key, 8);
  }

  /** XOR with zero is the identity: the case of a key octet that reads as
      `undefined`. */
  lemma XorZero(a: byte)
    ensures Xor(a, 0) == a
  {
    assert Pow2(8) == 256;
    XorBitsZero(a, 8);
  }
}
