/**
 * IPv4 helpers of the app: parsing a dotted quad into a big-endian 32-bit
 * value, prefix containment, and membership in the private ranges of
 * section 3 of RFC 1918 plus the link-local block of RFC 3927.
 */
module IpUtils {
  import opened Wrappers

  /** Swift's `UInt32`. */
  type U32 = x: int | 0 <= x < 0x1_0000_0000

  /** A value that fits in one octet. */
  type Byte = x: int | 0 <= x < 256

  // ---------------------------------------------------------------------
  // Powers of two and Swift's "smart" shifts on UInt32
  // ---------------------------------------------------------------------

  function Pow2(n: nat): (p: nat)
    ensures p >= 1
  {
    if n == 0 then 1 else 2 * Pow2(n - 1)
  }

  /** `x` shifted right by `n` places: the bits shifted out are lost. */
  function DropLowBits(x: U32, n: nat): U32
  {
    var d := Pow2(n);
    var q := x / d;
    DivNoLarger(x, d);
    q
  }

  lemma DivNoLarger(x: nat, d: nat)
    requires d >= 1
    ensures 0 <= x / d <= x
  {
  }

  /** `x` shifted left by `n` places, truncated to 32 bits. */
  function DropHighBits(x: U32, n: nat): U32
  {
    var m := x * Pow2(n);
    m % 0x1_0000_0000
  }

  /**
   * Swift's `x >> n` on `UInt32`: a shift by 32 or more places gives 0,
   * and a negative amount shifts the other way.
   */
  function ShiftRight(x: U32, n: int): U32
  {
    if n >= 32 || n <= -32 then 0
    else if n >= 0 then DropLowBits(x, n)
    else DropHighBits(x, -n)
  }

  /** Swift's `x << n` on `UInt32`. */
  function ShiftLeft(x: U32, n: int): U32
  {
    if n >= 32 || n <= -32 then 0
    else if n >= 0 then DropHighBits(x, n)
    else DropLowBits(x, -n)
  }

  // ---------------------------------------------------------------------
  // Swift's `String.split(separator: ".")`: empty pieces are dropped
  // ---------------------------------------------------------------------

  predicate DotFree(s: string)
  {
    forall k | 0 <= k < |s| :: s[k] != '.'
  }

  /** Index of the first '.' in `s`, or `|s|` when there is none. */
  function FirstDot(s: string): (i: nat)
    ensures i <= |s|
    ensures DotFree(s[..i])
    ensures i < |s| ==> s[i] == '.'
  {
    if s == [] || s[0] == '.' then 0
    else
      var j := FirstDot(s[1..]);
      assert s[1..][..j] == s[1..1 + j];
      1 + j
  }

  /** The maximal dot-free, non-empty runs of `s`, left to right. */
  function Split(s: string): (parts: seq<string>)
    ensures forall p | p in parts :: p != [] && DotFree(p)
    decreases |s|
  {
    if s == [] then []
    else
      var i := FirstDot(s);
      var rest := if i < |s| then Split(s[i + 1..]) else [];
      if i == 0 then rest else [s[..i]] + rest
  }

  /** The inverse direction: the pieces written back with one '.' between them. */
  function JoinDots(parts: seq<string>): string
  {
    if |parts| == 0 then ""
    else if |parts| == 1 then parts[0]
    else parts[0] + "." + JoinDots(parts[1..])
  }

  lemma {:induction false} FirstDotOfPiece(p: string, rest: string)
    requires DotFree(p)
    requires rest == [] || rest[0] == '.'
    ensures FirstDot(p + rest) == |p|
  {
    if p == [] {
      assert p + rest == rest;
    } else {
      assert (p + rest)[1..] == p[1..] + rest;
      FirstDotOfPiece(p[1..], rest);
    }
  }

  /** Splitting undoes joining, for pieces that are non-empty and dot-free. */
  lemma {:induction false} SplitJoinDots(parts: seq<string>)
    requires forall p | p in parts :: p != [] && DotFree(p)
    ensures Split(JoinDots(parts)) == parts
  {
    if |parts| == 1 {
      var p := parts[0];
      FirstDotOfPiece(p, []);
      assert p + [] == p;
      assert p[..|p|] == p;
    } else if |parts| > 1 {
      var p := parts[0];
      assert p in parts;
      SplitPiece(p, JoinDots(parts[1..]));
      assert forall q | q in parts[1..] :: q in parts;
      SplitJoinDots(parts[1..]);
      assert parts == [p] + parts[1..];
    }
  }

  /** A leading '.' yields no piece. */
  lemma SplitLeadingDot(s: string)
    ensures Split("." + s) == Split(s)
  {
    assert ("." + s)[1..] == s;
  }

  /** A non-empty dot-free run followed by '.' is the first piece. */
  lemma SplitPiece(p: string, rest: string)
    requires p != [] && DotFree(p)
    ensures Split(p + "." + rest) == [p] + Split(rest)
  {
    PieceThenDot(p, rest);
  }

  /** Where the first '.' of a dot-free run followed by '.' is, and what lies on either side of it. */
  lemma PieceThenDot(p: string, rest: string)
    requires DotFree(p)
    ensures FirstDot(p + "." + rest) == |p|
    ensures (p + "." + rest)[..|p|] == p && (p + "." + rest)[|p| + 1..] == rest
  {
    assert p + "." + rest == p + ("." + rest);
    FirstDotOfPiece(p, "." + rest);
  }

  lemma DoubleDot(p: string, rest: string)
    ensures p + ".." + rest == p + "." + ("." + rest)
  {
    assert ".." == "." + ".";
  }

  /** Two dots in a row leave no empty piece between them. */
  lemma SplitDoubleDot(p: string, parts: seq<string>)
    requires p != [] && DotFree(p)
    requires forall q | q in parts :: q != [] && DotFree(q)
    ensures Split(p + ".." + JoinDots(parts)) == [p] + parts
  {
    var rest := JoinDots(parts);
    var tail := "." + rest;
    DoubleDot(p, rest);
    SplitPiece(p, tail);
    assert Split(tail) == Split(rest) by {
      SplitLeadingDot(rest);
    }
    assert Split(rest) == parts by {
      SplitJoinDots(parts);
    }
  }

  /** Empty pieces vanish: "1..2.3.4", for one, has the four parts 1, 2, 3 and 4. */
  lemma SplitDropsEmptyPieces(a: string, b: string, c: string, d: string)
    requires forall q | q in [a, b, c, d] :: q != [] && DotFree(q)
    ensures Split(a + ".." + b + "." + c + "." + d) == [a, b, c, d]
  {
    assert JoinDots([b, c, d]) == b + "." + c + "." + d by {
      assert [b, c, d][1..] == [c, d];
      assert [c, d][1..] == [d];
      assert JoinDots([c, d]) == c + "." + d;
      assert b + "." + (c + "." + d) == b + "." + c + "." + d;
    }
    assert a + ".." + b + "." + c + "." + d == a + ".." + JoinDots([b, c, d]);
    assert a in [a, b, c, d];
    assert forall q | q in [b, c, d] :: q in [a, b, c, d];
    SplitDoubleDot(a, [b, c, d]);
  }

  // ---------------------------------------------------------------------
  // Swift's `UInt32(_: Substring)` (radix 10)
  // ---------------------------------------------------------------------

  predicate IsDigit(c: char)
  {
    '0' <= c <= '9'
  }

  predicate AllDigits(s: string)
  {
    forall k | 0 <= k < |s| :: IsDigit(s[k])
  }

  function DecimalValue(s: string): nat
    requires AllDigits(s)
  {
    if s == [] then 0
    else 10 * DecimalValue(s[..|s| - 1]) + ((s[|s| - 1] as int) - ('0' as int))
  }

  /**
   * An optional '+' or '-' and at least one ASCII digit. Overflow gives nil;
   * with '-' only a value of zero fits an unsigned type, so "-0" parses as 0.
   */
  function ParseUInt32(s: string): Option<U32>
  {
    if |s| > 0 && s[0] == '-' then
      var digits := s[1..];
      if digits != [] && AllDigits(digits) && DecimalValue(digits) == 0 then Some(0) else None
    else
      var digits := if |s| > 0 && s[0] == '+' then s[1..] else s;
      if digits != [] && AllDigits(digits) && DecimalValue(digits) < 0x1_0000_0000
      then Some(DecimalValue(digits))
      else None
  }

  /** `String(n)` for a natural number: its shortest decimal spelling. */
  function NatToDecimal(n: nat): (s: string)
    ensures s != [] && AllDigits(s) && DotFree(s)
    ensures DecimalValue(s) == n
    ensures s[0] != '+' && s[0] != '-'
  {
    var last := ('0' as int + n % 10) as char;
    if n < 10 then [last]
    else
      var front := NatToDecimal(n / 10);
      var s := front + [last];
      assert s[..|s| - 1] == front;
      s
  }

  /** Printing and parsing an unsigned value round-trip. */
  lemma ParseNatToDecimal(n: U32)
    ensures ParseUInt32(NatToDecimal(n)) == Some(n)
  {
  }

  /** The sign quirk: a '+' is accepted, and so is "-0". */
  lemma ParseUInt32Signs()
    ensures ParseUInt32("+42") == Some(42)
    ensures ParseUInt32("-0") == Some(0)
    ensures ParseUInt32("-1") == None
    ensures ParseUInt32("+") == None
  {
    assert "+42"[1..] == "42";
    assert "42"[..1] == "4";
    assert DecimalValue("4") == 4 by { assert "4"[..0] == ""; }
    assert "-0"[1..] == "0";
    assert "-1"[1..] == "1";
  }

  // ---------------------------------------------------------------------
  // ipv4ToInt
  // ---------------------------------------------------------------------

  /** One pass of the loop guard: a part that parses and is below 256. */
  function Octet(part: string): Option<Byte>
  {
    match ParseUInt32(part)
    case Some(n) => if n < 256 then Some(n) else None
    case None => None
  }

  /** Big-endian packing of four octets. */
  function Pack(a: Byte, b: Byte, c: Byte, d: Byte): U32
  {
    a * 0x100_0000 + b * 0x1_0000 + c * 0x100 + d
  }

  /** Reference definition of `ipv4ToInt`: four parts, each an octet, packed. */
  function ParseIpv4(address: string): Option<U32>
  {
    var parts := Split(address);
    if |parts| != 4 then None
    else if Octet(parts[0]).Some? && Octet(parts[1]).Some? && Octet(parts[2]).Some? && Octet(parts[3]).Some? then
      Some(Pack(Octet(parts[0]).value, Octet(parts[1]).value, Octet(parts[2]).value, Octet(parts[3]).value))
    else None
  }

  /** The sum of the first `|os|` octets, each shifted to its big-endian place. */
  function PackPrefix(os: seq<Byte>): nat
    requires |os| <= 4
  {
    if os == [] then 0
    else PackPrefix(os[..|os| - 1]) + os[|os| - 1] * Pow2(8 * (4 - |os|))
  }

  lemma PowersOf256()
    ensures Pow2(0) == 1 && Pow2(8) == 0x100 && Pow2(16) == 0x1_0000
    ensures Pow2(24) == 0x100_0000 && Pow2(32) == 0x1_0000_0000
  {
  }

  lemma Pow2Twenty()
    ensures Pow2(20) == 0x10_0000
  {
    PowersOf256();
    Pow2Add(16, 4);
    assert Pow2(4) == 16;
  }

  lemma {:induction false} Pow2Add(m: nat, n: nat)
    ensures Pow2(m + n) == Pow2(m) * Pow2(n)
  {
    if m > 0 {
      Pow2Add(m - 1, n);
      assert Pow2(m + n) == 2 * Pow2(m - 1 + n);
    }
  }

  /** The partial sum leaves room for the octets still to come. */
  lemma {:induction false} PackPrefixBound(os: seq<Byte>)
    requires |os| <= 4
    ensures PackPrefix(os) + Pow2(8 * (4 - |os|)) <= 0x1_0000_0000
  {
    if os == [] {
      PowersOf256();
    } else {
      var k := |os|;
      var front := os[..k - 1];
      var p := Pow2(8 * (4 - k));
      assert PackPrefix(os) == PackPrefix(front) + os[k - 1] * p;
      PackPrefixBound(front);
      Pow2NextByte(8 * (4 - k));
      assert 8 * (4 - (k - 1)) == 8 * (4 - k) + 8;
      MulMonotone(os[k - 1], 255, p);
    }
  }

  lemma Pow2NextByte(m: nat)
    ensures Pow2(m + 8) == 0x100 * Pow2(m)
  {
    Pow2Add(m, 8);
    assert Pow2(8) == 0x100;
  }

  /** A left shift whose result fits in 32 bits loses no bits. */
  lemma ShiftLeftNoOverflow(x: U32, offset: int)
    requires 0 <= offset < 32 && x * Pow2(offset) < 0x1_0000_0000
    ensures ShiftLeft(x, offset) == x * Pow2(offset)
  {
    var m := x * Pow2(offset);
    assert ShiftLeft(x, offset) == m % 0x1_0000_0000;
  }

  /** One iteration: `result += num << offset` adds the next octet without overflow. */
  lemma PackStep(os: seq<Byte>, b: Byte)
    requires |os| < 4
    ensures PackPrefix(os + [b]) < 0x1_0000_0000
    ensures PackPrefix(os) + ShiftLeft(b, (3 - |os|) * 8) == PackPrefix(os + [b])
  {
    var next := os + [b];
    var offset := (3 - |os|) * 8;
    assert next[..|os|] == os;
    assert 8 * (4 - |next|) == offset;
    assert PackPrefix(next) == PackPrefix(os) + b * Pow2(offset);
    PackPrefixBound(next);
    ShiftLeftNoOverflow(b, offset);
  }

  lemma PackPrefixFour(os: seq<Byte>)
    requires |os| == 4
    ensures PackPrefix(os) == Pack(os[0], os[1], os[2], os[3])
  {
    PowersOf256();
    assert os[..1][..0] == [];
    assert os[..2][..1] == os[..1];
    assert os[..3][..2] == os[..2];
    assert os[..4 - 1] == os[..3];
    assert PackPrefix(os[..1]) == (os[0] as int) * 0x100_0000;
    assert PackPrefix(os[..2]) == (os[0] as int) * 0x100_0000 + (os[1] as int) * 0x1_0000;
    assert PackPrefix(os[..3]) == (os[0] as int) * 0x100_0000 + (os[1] as int) * 0x1_0000 + (os[2] as int) * 0x100;
  }

  /** Four parts that spell the octets `os` parse to their packed sum. */
  lemma ParseIpv4OfOctets(address: string, os: seq<Byte>)
    requires |Split(address)| == 4 && |os| == 4
    requires forall j | 0 <= j < 4 :: Octet(Split(address)[j]) == Some(os[j])
    ensures ParseIpv4(address) == Some(PackPrefix(os))
  {
    PackPrefixFour(os);
  }

  /** The loop guard at one part: the parsed value is the octet when it is below 256. */
  lemma OctetGuard(parts: seq<string>, os: seq<Byte>, num: Option<U32>)
    requires |os| < |parts|
    requires num == ParseUInt32(parts[|os|])
    requires forall j | 0 <= j < |os| :: Octet(parts[j]) == Some(os[j])
    ensures num.None? || num.value >= 256 ==> Octet(parts[|os|]).None?
    ensures num.Some? && num.value < 256 ==>
      forall j | 0 <= j < |os| + 1 :: Octet(parts[j]) == Some((os + [num.value])[j])
  {
  }

  /** `ipv4ToInt`: the loop at IpUtils.swift:42-47 with its early returns. */
  method Ipv4ToInt(address: string) returns (r: Option<U32>)
    ensures r == ParseIpv4(address)
  {
    var parts := Split(address);
    if |parts| != 4 {
      return None;
    }
    var result: U32 := 0;
    ghost var octets: seq<Byte> := [];
    for i := 0 to 4
      invariant |octets| == i
      invariant forall j | 0 <= j < i :: Octet(parts[j]) == Some(octets[j])
      invariant result == PackPrefix(octets)
    {
      var num := ParseUInt32(parts[i]);
      OctetGuard(parts, octets, num);
      if num.None? || num.value >= 256 {
        ParseRejectsPart(address, i);
        return None;
      }
      var offset := (-i + 3) * 8;
      PackStep(octets, num.value);
      result := result + ShiftLeft(num.value, offset);
      octets := octets + [num.value];
    }
    ParseIpv4OfOctets(address, octets);
    return Some(result);
  }

  // ---------------------------------------------------------------------
  // Properties of ipv4ToInt
  // ---------------------------------------------------------------------

  /** The dotted-quad spelling of four octets, as `inet_ntoa` prints it. */
  function DottedQuad(a: Byte, b: Byte, c: Byte, d: Byte): string
  {
    NatToDecimal(a) + "." + NatToDecimal(b) + "." + NatToDecimal(c) + "." + NatToDecimal(d)
  }

  lemma JoinFour(a: string, b: string, c: string, d: string)
    ensures JoinDots([a, b, c, d]) == a + "." + b + "." + c + "." + d
  {
    assert [a, b, c, d][1..] == [b, c, d];
    assert [b, c, d][1..] == [c, d];
    assert [c, d][1..] == [d];
    assert JoinDots([c, d]) == c + "." + d;
    assert JoinDots([b, c, d]) == b + "." + (c + "." + d);
    assert a + "." + (b + "." + (c + "." + d)) == a + "." + b + "." + c + "." + d;
  }

  /** Parsing a printed dotted quad gives back the packed octets. */
  lemma ParseDottedQuad(a: Byte, b: Byte, c: Byte, d: Byte)
    ensures ParseIpv4(DottedQuad(a, b, c, d)) == Some(Pack(a, b, c, d))
  {
    var parts := [NatToDecimal(a), NatToDecimal(b), NatToDecimal(c), NatToDecimal(d)];
    JoinFour(parts[0], parts[1], parts[2], parts[3]);
    SplitJoinDots(parts);
    ParseNatToDecimal(a);
    ParseNatToDecimal(b);
    ParseNatToDecimal(c);
    ParseNatToDecimal(d);
  }

  /** The four octets of a packed value, most significant first. */
  function Unpack(x: U32): (Byte, Byte, Byte, Byte)
  {
    (x / 0x100_0000, (x / 0x1_0000) % 0x100, (x / 0x100) % 0x100, x % 0x100)
  }

  /** Packing loses nothing, so distinct octet quadruples give distinct values. */
  lemma UnpackPack(a: Byte, b: Byte, c: Byte, d: Byte)
    ensures Unpack(Pack(a, b, c, d)) == (a, b, c, d)
  {
    var x := Pack(a, b, c, d);
    UnpackFirst(a, b * 0x1_0000 + c * 0x100 + d);
    UnpackSecond(a, b, c * 0x100 + d);
    UnpackThird(a * 0x100 + b, c, d);
    LowOctet(a * 0x1_0000 + b * 0x100 + c, d);
  }

  lemma UnpackFirst(a: Byte, low: nat)
    requires low < 0x100_0000
    ensures (a * 0x100_0000 + low) / 0x100_0000 == a
  {
    DivIffRange(a * 0x100_0000 + low, 0x100_0000, a);
  }

  lemma UnpackSecond(a: Byte, b: Byte, low: nat)
    requires low < 0x1_0000
    ensures ((a * 0x100_0000 + b * 0x1_0000 + low) / 0x1_0000) % 0x100 == b
  {
    var x := a * 0x100_0000 + b * 0x1_0000 + low;
    DivIffRange(x, 0x1_0000, a * 0x100 + b);
    LowOctet(a, b);
  }

  lemma UnpackThird(h: nat, c: Byte, d: Byte)
    requires h < 0x1_0000
    ensures ((h * 0x1_0000 + c * 0x100 + d) / 0x100) % 0x100 == c
  {
    var x := h * 0x1_0000 + c * 0x100 + d;
    DivIffRange(x, 0x100, h * 0x100 + c);
    LowOctet(h, c);
  }

  /** The low octet of `h * 256 + l` is `l`. */
  lemma LowOctet(h: nat, l: Byte)
    ensures (h * 0x100 + l) % 0x100 == l
  {
  }

  lemma PackInjective(a: Byte, b: Byte, c: Byte, d: Byte, a': Byte, b': Byte, c': Byte, d': Byte)
    requires Pack(a, b, c, d) == Pack(a', b', c', d')
    ensures a == a' && b == b' && c == c' && d == d'
  {
    UnpackPack(a, b, c, d);
    UnpackPack(a', b', c', d');
  }

  /** Euclidean division pins the quotient to one block of `d` values. */
  lemma DivIffRange(x: int, d: int, q: int)
    requires d >= 1
    ensures x / d == q <==> q * d <= x < q * d + d
  {
    var q0, r0 := x / d, x % d;
    assert x == q0 * d + r0 && 0 <= r0 < d;
    if q0 < q {
      assert (q0 + 1) * d <= q * d by { MulMonotone(q0 + 1, q, d); }
    } else if q0 > q {
      assert (q + 1) * d <= q0 * d by { MulMonotone(q + 1, q0, d); }
    }
  }

  lemma MulMonotone(a: int, b: int, d: int)
    requires a <= b && d >= 0
    ensures a * d <= b * d
  {
  }

  /** Four pieces joined by single dots split back into those pieces. */
  lemma SplitFour(a: string, b: string, c: string, d: string)
    requires forall q | q in [a, b, c, d] :: q != [] && DotFree(q)
    ensures Split(a + "." + b + "." + c + "." + d) == [a, b, c, d]
  {
    JoinFour(a, b, c, d);
    SplitJoinDots([a, b, c, d]);
  }

  /** The shortest spelling of an octet passes the loop guard with its own value. */
  lemma OctetOfSpelling(s: string, n: Byte)
    requires s == NatToDecimal(n)
    ensures Octet(s) == Some(n)
  {
    ParseNatToDecimal(n);
  }

  /** `ipv4ToInt` packs whatever four octets the parts spell. */
  lemma ParseFourOctets(s: string, a: Byte, b: Byte, c: Byte, d: Byte)
    requires |Split(s)| == 4
    requires Octet(Split(s)[0]) == Some(a) && Octet(Split(s)[1]) == Some(b)
    requires Octet(Split(s)[2]) == Some(c) && Octet(Split(s)[3]) == Some(d)
    ensures ParseIpv4(s) == Some(Pack(a, b, c, d))
  {
  }

  // Values pinned by the unit tests of `ipv4ToInt` (IpUtilsTests.swift).

  /** The spellings of the octets that occur in those tests. */
  lemma OctetsPrivateAddress()
    ensures Octet("192") == Some(192) && Octet("168") == Some(168) && Octet("23") == Some(23) && Octet("42") == Some(42)
  {
    OctetOfSpelling("192", 192);
    OctetOfSpelling("168", 168);
    OctetOfSpelling("23", 23);
    OctetOfSpelling("42", 42);
  }

  lemma SplitPrivateAddress()
    ensures Split("192.168.23.42") == ["192", "168", "23", "42"]
  {
    assert "192" + "." + "168" + "." + "23" + "." + "42" == "192.168.23.42";
    SplitFour("192", "168", "23", "42");
  }

  lemma ParsesPrivateAddress()
    ensures ParseIpv4("192.168.23.42") == Some(3232241450)
  {
    SplitPrivateAddress();
    OctetsPrivateAddress();
    ParseFourOctets("192.168.23.42", 192, 168, 23, 42);
  }

  lemma OctetsZeroAddress()
    ensures Octet("0") == Some(0)
  {
    OctetOfSpelling("0", 0);
  }

  lemma SplitZeroAddress()
    ensures Split("0.0.0.0") == ["0", "0", "0", "0"]
  {
    assert "0" + "." + "0" + "." + "0" + "." + "0" == "0.0.0.0";
    SplitFour("0", "0", "0", "0");
  }

  lemma ParsesZeroAddress()
    ensures ParseIpv4("0.0.0.0") == Some(0)
  {
    SplitZeroAddress();
    OctetsZeroAddress();
    ParseFourOctets("0.0.0.0", 0, 0, 0, 0);
  }

  lemma OctetsBroadcastAddress()
    ensures Octet("255") == Some(255)
  {
    OctetOfSpelling("255", 255);
  }

  lemma SplitBroadcastAddress()
    ensures Split("255.255.255.255") == ["255", "255", "255", "255"]
  {
    assert "255" + "." + "255" + "." + "255" + "." + "255" == "255.255.255.255";
    SplitFour("255", "255", "255", "255");
  }

  lemma ParsesBroadcastAddress()
    ensures ParseIpv4("255.255.255.255") == Some(0xFFFF_FFFF)
  {
    SplitBroadcastAddress();
    OctetsBroadcastAddress();
    ParseFourOctets("255.255.255.255", 255, 255, 255, 255);
  }

  lemma OctetsOnesAddress()
    ensures Octet("1") == Some(1)
  {
    OctetOfSpelling("1", 1);
  }

  lemma SplitOnesAddress()
    ensures Split("1.1.1.1") == ["1", "1", "1", "1"]
  {
    assert "1" + "." + "1" + "." + "1" + "." + "1" == "1.1.1.1";
    SplitFour("1", "1", "1", "1");
  }

  lemma ParsesOnesAddress()
    ensures ParseIpv4("1.1.1.1") == Some(0x0101_0101)
  {
    SplitOnesAddress();
    OctetsOnesAddress();
    ParseFourOctets("1.1.1.1", 1, 1, 1, 1);
  }

  lemma OctetsNinesAddress()
    ensures Octet("9") == Some(9)
  {
    OctetOfSpelling("9", 9);
  }

  lemma SplitNinesAddress()
    ensures Split("9.9.9.9") == ["9", "9", "9", "9"]
  {
    assert "9" + "." + "9" + "." + "9" + "." + "9" == "9.9.9.9";
    SplitFour("9", "9", "9", "9");
  }

  lemma ParsesNinesAddress()
    ensures ParseIpv4("9.9.9.9") == Some(0x0909_0909)
  {
    SplitNinesAddress();
    OctetsNinesAddress();
    ParseFourOctets("9.9.9.9", 9, 9, 9, 9);
  }

  /** Split of a few non-empty dot-free pieces joined by single dots. */
  lemma SplitPieces(parts: seq<string>, s: string)
    requires forall q | q in parts :: q != [] && DotFree(q)
    requires s == JoinDots(parts)
    ensures |Split(s)| == |parts|
  {
    SplitJoinDots(parts);
  }

  lemma RejectsThreeParts()
    ensures ParseIpv4("192.168.0") == None
  {
    assert JoinDots(["192", "168", "0"]) == "192.168.0" by {
      assert ["192", "168", "0"][1..] == ["168", "0"];
      assert ["168", "0"][1..] == ["0"];
    }
    SplitPieces(["192", "168", "0"], "192.168.0");
  }

  lemma RejectsDomainName()
    ensures ParseIpv4("www.google.com") == None
  {
    assert JoinDots(["www", "google", "com"]) == "www.google.com" by {
      assert ["www", "google", "com"][1..] == ["google", "com"];
      assert ["google", "com"][1..] == ["com"];
    }
    SplitPieces(["www", "google", "com"], "www.google.com");
  }

  lemma RejectsTwoParts()
    ensures ParseIpv4("fritz.box") == None
  {
    assert JoinDots(["fritz", "box"]) == "fritz.box" by {
      assert ["fritz", "box"][1..] == ["box"];
    }
    SplitPieces(["fritz", "box"], "fritz.box");
  }

  lemma RejectsHostName()
    ensures ParseIpv4("localhost") == None
  {
    SplitPieces(["localhost"], "localhost");
  }

  /** A part that is not an octet makes the whole address fail. */
  lemma ParseRejectsPart(s: string, j: nat)
    requires |Split(s)| == 4 && j < 4
    requires Octet(Split(s)[j]).None?
    ensures ParseIpv4(s) == None
  {
  }

  lemma SplitOctet256Address()
    ensures Split("192.168.0.256") == ["192", "168", "0", "256"]
  {
    assert "192" + "." + "168" + "." + "0" + "." + "256" == "192.168.0.256";
    SplitFour("192", "168", "0", "256");
  }

  lemma Octet256()
    ensures Octet("256") == None
  {
    assert NatToDecimal(256) == "256";
    ParseNatToDecimal(256);
  }

  lemma RejectsOctet256()
    ensures ParseIpv4("192.168.0.256") == None
  {
    SplitOctet256Address();
    Octet256();
    ParseRejectsPart("192.168.0.256", 3);
  }

  // ---------------------------------------------------------------------
  // LocalIpv4Network and isLocalIpv4Address
  // ---------------------------------------------------------------------

  /** A network given by its address and the length of its prefix. */
  datatype LocalIpv4Network = LocalIpv4Network(address: U32, prefixLength: int)
  {
    /** Both addresses agree once the host bits are shifted out. */
    predicate Contains(a: U32)
    {
      var offset := 32 - prefixLength;
      ShiftRight(address, offset) == ShiftRight(a, offset)
    }

    /** First address of the block of `2^(32 - prefixLength)` addresses holding `address`. */
    function BlockStart(): int
      requires 0 <= prefixLength <= 32
    {
      var size := Pow2(32 - prefixLength);
      (address / size) * size
    }
  }

  /** The initializer: it force-unwraps the parsed address, so callers must pass a valid one. */
  function NetworkOf(address: string, prefixLength: int): (n: LocalIpv4Network)
    requires ParseIpv4(address).Some?
    ensures Some(n.address) == ParseIpv4(address) && n.prefixLength == prefixLength
  {
    LocalIpv4Network(ParseIpv4(address).value, prefixLength)
  }

  /**
   * The private ranges of RFC 1918 (10/8, 172.16/12, 192.168/16) and the
   * link-local range of RFC 3927 (169.254/16), in the order the app tries them.
   */
  const LocalIpv4Networks: seq<LocalIpv4Network> := [
    LocalIpv4Network(0x0A00_0000, 8),
    LocalIpv4Network(0xAC10_0000, 12),
    LocalIpv4Network(0xC0A8_0000, 16),
    LocalIpv4Network(0xA9FE_0000, 16)
  ]

  lemma OctetsNetwork10()
    ensures Octet("10") == Some(10) && Octet("0") == Some(0)
  {
    OctetOfSpelling("10", 10);
    OctetOfSpelling("0", 0);
  }

  lemma SplitNetwork10()
    ensures Split("10.0.0.0") == ["10", "0", "0", "0"]
  {
    assert "10" + "." + "0" + "." + "0" + "." + "0" == "10.0.0.0";
    SplitFour("10", "0", "0", "0");
  }

  /** `LocalIpv4Network("10.0.0.0", 8)` unwraps a parsed address and yields the table entry. */
  lemma ParsesNetwork10()
    ensures ParseIpv4("10.0.0.0").Some?
    ensures NetworkOf("10.0.0.0", 8) == LocalIpv4Networks[0]
  {
    SplitNetwork10();
    OctetsNetwork10();
    ParseFourOctets("10.0.0.0", 10, 0, 0, 0);
  }

  lemma OctetsNetwork172()
    ensures Octet("172") == Some(172) && Octet("16") == Some(16) && Octet("0") == Some(0)
  {
    OctetOfSpelling("172", 172);
    OctetOfSpelling("16", 16);
    OctetOfSpelling("0", 0);
  }

  lemma SplitNetwork172()
    ensures Split("172.16.0.0") == ["172", "16", "0", "0"]
  {
    assert "172" + "." + "16" + "." + "0" + "." + "0" == "172.16.0.0";
    SplitFour("172", "16", "0", "0");
  }

  /** `LocalIpv4Network("172.16.0.0", 12)` unwraps a parsed address and yields the table entry. */
  lemma ParsesNetwork172()
    ensures ParseIpv4("172.16.0.0").Some?
    ensures NetworkOf("172.16.0.0", 12) == LocalIpv4Networks[1]
  {
    SplitNetwork172();
    OctetsNetwork172();
    ParseFourOctets("172.16.0.0", 172, 16, 0, 0);
  }

  lemma OctetsNetwork192()
    ensures Octet("192") == Some(192) && Octet("168") == Some(168) && Octet("0") == Some(0)
  {
    OctetOfSpelling("192", 192);
    OctetOfSpelling("168", 168);
    OctetOfSpelling("0", 0);
  }

  lemma SplitNetwork192()
    ensures Split("192.168.0.0") == ["192", "168", "0", "0"]
  {
    assert "192" + "." + "168" + "." + "0" + "." + "0" == "192.168.0.0";
    SplitFour("192", "168", "0", "0");
  }

  /** `LocalIpv4Network("192.168.0.0", 16)` unwraps a parsed address and yields the table entry. */
  lemma ParsesNetwork192()
    ensures ParseIpv4("192.168.0.0").Some?
    ensures NetworkOf("192.168.0.0", 16) == LocalIpv4Networks[2]
  {
    SplitNetwork192();
    OctetsNetwork192();
    ParseFourOctets("192.168.0.0", 192, 168, 0, 0);
  }

  lemma OctetsNetwork169()
    ensures Octet("169") == Some(169) && Octet("254") == Some(254) && Octet("0") == Some(0)
  {
    OctetOfSpelling("169", 169);
    OctetOfSpelling("254", 254);
    OctetOfSpelling("0", 0);
  }

  lemma SplitNetwork169()
    ensures Split("169.254.0.0") == ["169", "254", "0", "0"]
  {
    assert "169" + "." + "254" + "." + "0" + "." + "0" == "169.254.0.0";
    SplitFour("169", "254", "0", "0");
  }

  /** `LocalIpv4Network("169.254.0.0", 16)` unwraps a parsed address and yields the table entry. */
  lemma ParsesNetwork169()
    ensures ParseIpv4("169.254.0.0").Some?
    ensures NetworkOf("169.254.0.0", 16) == LocalIpv4Networks[3]
  {
    SplitNetwork169();
    OctetsNetwork169();
    ParseFourOctets("169.254.0.0", 169, 254, 0, 0);
  }

  /**
   * For a prefix length between 0 and 32, `contains` holds exactly for the
   * addresses of the aligned block of `2^(32 - prefixLength)` addresses.
   */
  lemma ContainsBlock(n: LocalIpv4Network, a: U32)
    requires 0 <= n.prefixLength <= 32
    ensures n.Contains(a) <==> n.BlockStart() <= a < n.BlockStart() + Pow2(32 - n.prefixLength)
  {
    var offset := 32 - n.prefixLength;
    if offset == 32 {
      WholeSpace(n.address, a);
    } else {
      var size := Pow2(offset);
      assert n.Contains(a) <==> a / size == n.address / size;
      DivIffRange(a, size, n.address / size);
    }
  }

  /** With no prefix bits every address is in the one block that starts at 0. */
  lemma WholeSpace(x: U32, a: U32)
    ensures ShiftRight(x, 32) == ShiftRight(a, 32)
    ensures (x / Pow2(32)) * Pow2(32) == 0 && a < Pow2(32)
  {
    PowersOf256();
  }

  /** The reference definition: one of the local networks contains the address. */
  predicate IsLocal(a: U32)
  {
    exists i | 0 <= i < |LocalIpv4Networks| :: LocalIpv4Networks[i].Contains(a)
  }

  /** `isLocalIpv4Address`: the first network that contains the address answers. */
  method IsLocalIpv4Address(a: U32) returns (local: bool)
    ensures local == IsLocal(a)
  {
    for i := 0 to |LocalIpv4Networks|
      invariant forall j | 0 <= j < i :: !LocalIpv4Networks[j].Contains(a)
    {
      if LocalIpv4Networks[i].Contains(a) {
        return true;
      }
    }
    return false;
  }

  /** The ranges written out as intervals of 32-bit values. */
  predicate InPrivateRange(a: U32)
  {
    || 0x0A00_0000 <= a < 0x0B00_0000
    || 0xAC10_0000 <= a < 0xAC20_0000
    || 0xC0A8_0000 <= a < 0xC0A9_0000
    || 0xA9FE_0000 <= a < 0xA9FF_0000
  }

  /** `isLocalIpv4Address` accepts exactly the four ranges. */
  lemma IsLocalIffPrivateRange(a: U32)
    ensures IsLocal(a) <==> InPrivateRange(a)
  {
    PowersOf256();
    Pow2Twenty();
    var ns := LocalIpv4Networks;
    ContainsBlock(ns[0], a);
    ContainsBlock(ns[1], a);
    ContainsBlock(ns[2], a);
    ContainsBlock(ns[3], a);
    assert ns[0].BlockStart() == 0x0A00_0000;
    assert ns[1].BlockStart() == 0xAC10_0000;
    assert ns[2].BlockStart() == 0xC0A8_0000;
    assert ns[3].BlockStart() == 0xA9FE_0000;
    if InPrivateRange(a) {
      assert ns[0].Contains(a) || ns[1].Contains(a) || ns[2].Contains(a) || ns[3].Contains(a);
    }
  }

  /** The addresses of the unit tests of `isLocalIpv4Address`, as packed values. */
  lemma LocalTestAddresses()
    ensures IsLocal(Pack(10, 10, 10, 10)) && IsLocal(Pack(169, 254, 0, 255))
    ensures IsLocal(Pack(192, 168, 42, 23)) && IsLocal(Pack(172, 23, 1, 55))
    ensures !IsLocal(Pack(9, 10, 10, 10)) && !IsLocal(Pack(196, 254, 0, 255))
    ensures !IsLocal(Pack(192, 169, 42, 23)) && !IsLocal(Pack(172, 32, 0, 0))
  {
    IsLocalIffPrivateRange(Pack(10, 10, 10, 10));
    IsLocalIffPrivateRange(Pack(169, 254, 0, 255));
    IsLocalIffPrivateRange(Pack(192, 168, 42, 23));
    IsLocalIffPrivateRange(Pack(172, 23, 1, 55));
    IsLocalIffPrivateRange(Pack(9, 10, 10, 10));
    IsLocalIffPrivateRange(Pack(196, 254, 0, 255));
    IsLocalIffPrivateRange(Pack(192, 169, 42, 23));
    IsLocalIffPrivateRange(Pack(172, 32, 0, 0));
  }
}
