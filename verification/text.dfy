/** String vocabulary the codecs share: JavaScript's `startsWith`,
    `split` with a string separator, `Array.prototype.join`, the decimal and
    hexadecimal renderings of octets, dotted-decimal text, ASCII
    lower-casing, and the octet/character correspondence
    `TextDecoder`/`TextEncoder` give on ASCII.
 */
module Text {
  import opened Wrappers
  import opened Bytes

  /** `s.startsWith(prefix)`. */
  predicate StartsWith(s: string, prefix: string) {
    |prefix| <= |s| && s[..|prefix|] == prefix
  }

  /** `sep` occurs in `s` starting at index `j`. */
  predicate OccursAt(s: string, sep: string, j: nat) {
    j + |sep| <= |s| && s[j..j + |sep|] == sep
  }

  /** `sep` occurs nowhere in `s`. */
  predicate Free(s: string, sep: string) {
    forall j :: 0 <= j <= |s| ==> !OccursAt(s, sep, j)
  }

  lemma OccursShift(s: string, sep: string)
    requires |s| > 0
    ensures forall j: nat :: 1 <= j ==> (OccursAt(s, sep, j) <==> OccursAt(s[1..], sep, j - 1))
  {
    forall j: nat | 1 <= j
      ensures OccursAt(s, sep, j) <==> OccursAt(s[1..], sep, j - 1)
    {
      if j + |sep| <= |s| {
        assert s[1..][j - 1..j - 1 + |sep|] == s[j..j + |sep|];
      }
    }
  }

  /** The first index at which `sep` occurs in `s` (`s.indexOf(sep)`), or
      `None` for -1. */
  function Find(s: string, sep: string): (r: Option<nat>)
    requires |sep| > 0
    ensures r.Some? ==> OccursAt(s, sep, r.value)
    ensures r.Some? ==> forall j: nat :: j < r.value ==> !OccursAt(s, sep, j)
    ensures r.None? ==> Free(s, sep)
    decreases |s|
  {
    if |s| < |sep| then None
    else if s[..|sep|] == sep then Some(0)
    else
      OccursShift(s, sep);
      match Find(s[1..], sep)
      case None => None
      case Some(i) => Some(i + 1)
  }

  /** `s.split(sep)` for a non-empty string separator: the pieces between
      successive leftmost non-overlapping occurrences of `sep`. */
  function Split(s: string, sep: string): (parts: seq<string>)
    requires |sep| > 0
    ensures |parts| >= 1
    decreases |s|
  {
    match Find(s, sep)
    case None => [s]
    case Some(i) => [s[..i]] + Split(s[i + |sep|..], sep)
  }

  /** `parts.join(sep)`. */
  function Join(parts: seq<string>, sep: string): string
  {
    if |parts| == 0 then ""
    else if |parts| == 1 then parts[0]
    else parts[0] + sep + Join(parts[1..], sep)
  }

  /** Joining the pieces of a split restores the string. */
  lemma {:induction false} JoinSplit(s: string, sep: string)
    requires |sep| > 0
    ensures Join(Split(s, sep), sep) == s
    decreases |s|
  {
    var f := Find(s, sep);
    if f.Some? {
      var i := f.value;
      var rest := s[i + |sep|..];
      SplitStep(s, sep, i);
      JoinSplit(rest, sep);
      JoinCons(s[..i], Split(rest, sep), sep);
    }
  }

  /** One piece of a split and the rest of the string around the separator. */
  lemma SplitStep(s: string, sep: string, i: nat)
    requires |sep| > 0 && Find(s, sep) == Some(i)
    ensures i + |sep| <= |s|
    ensures Split(s, sep) == [s[..i]] + Split(s[i + |sep|..], sep)
    ensures s == s[..i] + sep + s[i + |sep|..]
  {
    assert OccursAt(s, sep, i);
    AroundOccurrence(s, sep, i);
  }

  lemma AroundOccurrence(s: string, sep: string, i: nat)
    requires OccursAt(s, sep, i)
    ensures s == s[..i] + sep + s[i + |sep|..]
  {
    assert s == s[..i] + s[i..i + |sep|] + s[i + |sep|..];
  }

  /** Joining a first piece in front of a non-empty list. */
  lemma JoinCons(a: string, tail: seq<string>, sep: string)
    requires |tail| > 0
    ensures Join([a] + tail, sep) == a + sep + Join(tail, sep)
  {
    assert ([a] + tail)[1..] == tail;
  }

  /** A piece that holds no separator is split into itself. */
  lemma SplitFree(s: string, sep: string)
    requires |sep| > 0 && Free(s, sep)
    ensures Split(s, sep) == [s]
  {
  }

  /** When `a` holds no first character of `sep`, the first occurrence of
      `sep` in `a + sep + b` is the one right after `a`. */
  lemma FindAfter(a: string, sep: string, b: string)
    requires |sep| > 0 && sep[0] !in a
    ensures Find(a + sep + b, sep) == Some(|a|)
  {
    var s := a + sep + b;
    assert s[|a|..|a| + |sep|] == sep;
    assert OccursAt(s, sep, |a|);
    var r := Find(s, sep);
    if r.Some? && r.value < |a| {
      assert false;
    }
  }

  /** Splitting a join restores the pieces, provided no piece but the last
      holds the separator's first character and the last holds no separator. */
  lemma SplitJoin(parts: seq<string>, sep: string)
    requires |sep| > 0 && |parts| >= 1
    requires forall i :: 0 <= i < |parts| - 1 ==> sep[0] !in parts[i]
    requires Free(parts[|parts| - 1], sep)
    ensures Split(Join(parts, sep), sep) == parts
  {
    SplitJoinPrefix(parts, sep);
    SplitFree(parts[|parts| - 1], sep);
    InitLast(parts);
  }

  lemma InitLast<T>(s: seq<T>)
    requires |s| > 0
    ensures s[..|s| - 1] + [s[|s| - 1]] == s
  {
  }

  lemma LastOfConcat<T>(a: seq<T>, b: seq<T>)
    requires |b| > 0
    ensures |a + b| > 0 && (a + b)[|a + b| - 1] == b[|b| - 1]
  {
  }

  lemma InitCons<T>(s: seq<T>)
    requires |s| > 1
    ensures s[..|s| - 1] == [s[0]] + s[1..][..|s| - 2]
    ensures [s[0]] + s[1..] == s
  {
  }

  /** Splitting a join restores every piece but the last, which is split in
      turn, provided no piece but the last holds the separator's first
      character. */
  lemma {:induction false} SplitJoinPrefix(parts: seq<string>, sep: string)
    requires |sep| > 0 && |parts| >= 1
    requires forall i :: 0 <= i < |parts| - 1 ==> sep[0] !in parts[i]
    ensures Split(Join(parts, sep), sep) == parts[..|parts| - 1] + Split(parts[|parts| - 1], sep)
  {
    if |parts| == 1 {
      assert parts[..0] == [];
    } else {
      var rest := Join(parts[1..], sep);
      InitCons(parts);
      JoinCons(parts[0], parts[1..], sep);
      SplitAfter(parts[0], sep, rest);
      SplitJoinPrefix(parts[1..], sep);
      var tail := parts[1..];
      assert tail[|tail| - 1] == parts[|parts| - 1];
      ConcatAssoc([parts[0]], tail[..|tail| - 1], Split(parts[|parts| - 1], sep));
    }
  }

  lemma ConcatAssoc<T>(a: seq<T>, b: seq<T>, c: seq<T>)
    ensures a + (b + c) == a + b + c
  {
  }

  /** A piece free of the separator's first character, then the separator,
      splits off as the first piece. */
  lemma SplitAfter(a: string, sep: string, b: string)
    requires |sep| > 0 && sep[0] !in a
    ensures Split(a + sep + b, sep) == [a] + Split(b, sep)
  {
    var s := a + sep + b;
    FindAfter(a, sep, b);
    SplitStep(s, sep, |a|);
    assert s[..|a|] == a;
    assert s[|a| + |sep|..] == b;
  }

  // ---------------------------------------------------------------------
  // Decimal and hexadecimal renderings

  predicate IsDigit(c: char) {
    '0' <= c <= '9'
  }

  predicate AllDigits(s: string) {
    forall i :: 0 <= i < |s| ==> IsDigit(s[i])
  }

  function DigitChar(d: nat): (c: char)
    requires d < 10
    ensures IsDigit(c)
  {
    ('0' as int + d) as char
  }

  /** `String(n)` for a non-negative integer: decimal, no leading zero. */
  function NatToDecimal(n: nat): (r: string)
    ensures |r| >= 1 && AllDigits(r)
    ensures n < 10 <==> |r| == 1
  {
    if n < 10 then [DigitChar(n)] else NatToDecimal(n / 10) + [DigitChar(n % 10)]
  }

  /** The number a string of decimal digits denotes. */
  function DecimalValue(s: string): nat
    requires AllDigits(s)
  {
    if |s| == 0 then 0 else DecimalValue(s[..|s| - 1]) * 10 + (s[|s| - 1] as int - '0' as int)
  }

  /** Reading a rendered number back gives the number. */
  lemma {:induction false} DecimalRoundTrip(n: nat)
    ensures DecimalValue(NatToDecimal(n)) == n
  {
    if n >= 10 {
      var r := NatToDecimal(n);
      assert r[..|r| - 1] == NatToDecimal(n / 10);
      DecimalRoundTrip(n / 10);
    }
  }

  /** An octet renders in at most three digits. */
  lemma {:induction false} OctetDecimalLength(b: byte)
    ensures 1 <= |NatToDecimal(b)| <= 3
  {
    if b >= 10 {
      if b >= 100 {
        assert |NatToDecimal(b / 10)| == 2 by {
          assert NatToDecimal(b / 10) == NatToDecimal(b / 100) + [DigitChar((b / 10) % 10)];
        }
      }
    }
  }

  predicate IsHexDigit(c: char) {
    '0' <= c <= '9' || 'a' <= c <= 'f'
  }

  /** One lower-case hexadecimal digit, as `toString(16)` writes it. */
  function HexDigit(d: nat): (c: char)
    requires d < 16
    ensures IsHexDigit(c)
  {
    if d < 10 then ('0' as int + d) as char else ('a' as int + (d - 10)) as char
  }

  function HexDigitValue(c: char): (d: nat)
    requires IsHexDigit(c)
    ensures d < 16
  {
    if c <= '9' then c as int - '0' as int else c as int - 'a' as int + 10
  }

  /** `b.toString(16).padStart(2, '0')`: two lower-case hex digits. */
  function Hex2(b: byte): (r: string)
    ensures |r| == 2 && IsHexDigit(r[0]) && IsHexDigit(r[1])
  {
    [HexDigit(b / 16), HexDigit(b % 16)]
  }

  /** The octet two hex digits denote. */
  function Hex2Value(s: string): (b: byte)
    requires |s| == 2 && IsHexDigit(s[0]) && IsHexDigit(s[1])
  {
    HexDigitValue(s[0]) * 16 + HexDigitValue(s[1])
  }

  lemma Hex2RoundTrip(b: byte)
    ensures Hex2Value(Hex2(b)) == b
  {
  }

  // ---------------------------------------------------------------------
  // Characters and octets

  /** `TextDecoder.decode` on ASCII input: each octet is one character. */
  function DecodeAscii(bs: seq<byte>): (s: string)
    ensures |s| == |bs|
  {
    seq(|bs|, i requires 0 <= i < |bs| => bs[i] as char)
  }

  /** `TextEncoder.encode` on characters below 256, the inverse of `DecodeAscii`. */
  function EncodeAscii(s: string): (bs: seq<byte>)
    requires forall i :: 0 <= i < |s| ==> s[i] as int < 256
    ensures |bs| == |s|
  {
    seq(|s|, i requires 0 <= i < |s| => s[i] as int)
  }

  lemma AsciiRoundTrip(bs: seq<byte>)
    ensures EncodeAscii(DecodeAscii(bs)) == bs
  {
  }

  lemma TextRoundTrip(s: string)
    requires forall i :: 0 <= i < |s| ==> s[i] as int < 256
    ensures DecodeAscii(EncodeAscii(s)) == s
  {
  }

  /** `toLowerCase` on one ASCII character. */
  function LowerChar(c: char): char {
    if 'A' <= c <= 'Z' then (c as int + 32) as char else c
  }

  /** `s.toLowerCase()` for ASCII text. */
  function ToLower(s: string): (r: string)
    ensures |r| == |s|
    ensures forall i :: 0 <= i < |r| ==> !('A' <= r[i] <= 'Z')
  {
    seq(|s|, i requires 0 <= i < |s| => LowerChar(s[i]))
  }

  /** Lower-casing twice is lower-casing once. */
  lemma ToLowerIdempotent(s: string)
    ensures ToLower(ToLower(s)) == ToLower(s)
  {
  }

  // ---------------------------------------------------------------------
  // Dotted-decimal text (`${b0}.${b1}.${b2}.${b3}`) and its parser

  /** The decimal renderings of the octets, one per octet. */
  function DecimalParts(bs: seq<byte>): (ps: seq<string>)
    ensures |ps| == |bs|
    ensures forall i :: 0 <= i < |ps| ==> AllDigits(ps[i])
  {
    if |bs| == 0 then [] else [NatToDecimal(bs[0])] + DecimalParts(bs[1..])
  }

  /** The octets that decimal pieces of at most three digits denote. */
  function ParseDecimalParts(ps: seq<string>): (r: Option<seq<byte>>)
    ensures r.Some? ==> |r.value| == |ps|
  {
    if |ps| == 0 then Some([])
    else if 1 <= |ps[0]| <= 3 && AllDigits(ps[0]) && DecimalValue(ps[0]) < 256 then
      match ParseDecimalParts(ps[1..])
      case None => None
      case Some(rest) => Some([DecimalValue(ps[0]) as byte] + rest)
    else None
  }

  lemma {:induction false} DecimalPartsRoundTrip(bs: seq<byte>)
    ensures ParseDecimalParts(DecimalParts(bs)) == Some(bs)
  {
    if |bs| > 0 {
      OctetDecimalLength(bs[0]);
      DecimalRoundTrip(bs[0]);
      DecimalPartsRoundTrip(bs[1..]);
      assert bs == [bs[0]] + bs[1..];
    }
  }

  /** The IPv4 host text: four octets in decimal joined by '.'. */
  function DottedQuad(bs: seq<byte>): string
    requires |bs| == 4
  {
    Join(DecimalParts(bs), ".")
  }

  /** Reads dotted-decimal text back into its four octets. */
  function ParseDottedQuad(s: string): (r: Option<seq<byte>>)
    ensures r.Some? ==> |r.value| == 4
  {
    var parts := Split(s, ".");
    if |parts| == 4 then ParseDecimalParts(parts) else None
  }

  /** Characters drawn from a set that excludes the separator's only
      character hold neither it nor any occurrence of the separator. */
  lemma NoSeparator(s: string, sep: string)
    requires |sep| == 1
    requires forall i :: 0 <= i < |s| ==> s[i] != sep[0]
    ensures sep[0] !in s && Free(s, sep)
  {
    forall j | 0 <= j <= |s|
      ensures !OccursAt(s, sep, j)
    {
    }
  }

  /** Text built from decimal pieces splits back into those pieces. */
  lemma SplitDecimalParts(bs: seq<byte>)
    requires |bs| >= 1
    ensures Split(Join(DecimalParts(bs), "."), ".") == DecimalParts(bs)
  {
    var ps := DecimalParts(bs);
    forall i | 0 <= i < |ps|
      ensures "."[0] !in ps[i] && Free(ps[i], ".")
    {
      NoSeparator(ps[i], ".");
    }
    SplitJoin(ps, ".");
  }

  /** The IPv4 rendering is lossless: the text parses back to the octets. */
  lemma DottedQuadRoundTrip(bs: seq<byte>)
    requires |bs| == 4
    ensures ParseDottedQuad(DottedQuad(bs)) == Some(bs)
  {
    SplitDecimalParts(bs);
    DecimalPartsRoundTrip(bs);
  }
}
