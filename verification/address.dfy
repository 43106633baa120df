/**
 Address normalisation (`parseIP`): a parsed address, as a 4- or 16-byte
 value, becomes an IPv4 32-bit or an IPv6 128-bit integer. The standard
 library's parser itself yields 16 bytes for IPv4 text as well (the
 ::ffff:a.b.c.d form); a 4-byte value stands for what `To4` returns, and
 both give the same result (`MappedFormIsMappedBracket`). IPv6 forms that
 carry an IPv4 address are folded to that address: IPv4-mapped
 (::ffff:0:0/96, section 2.5.5.2 of RFC 4291), 6to4 (2002::/16, section 2
 of RFC 3056) and Teredo (2001::/32, section 4 of RFC 4380, which stores
 the client address complemented).
 */
module Address {
  import opened Words

  const MappedMin: nat := 281470681743360
  const MappedMax: nat := 281474976710655
  const SixToFourMin: nat := 42545680458834377588178886921629466624
  const SixToFourMax: nat := 42550872755692912415807417417958686719
  const TeredoMin: nat := 42540488161975842760550356425300246528
  const TeredoMax: nat := 42540488241204005274814694018844196863
  const Low32Bits: nat := 4294967295
  const V4Max: nat := 4294967295
  const V6Max: nat := 340282366920938463463374607431768211455

  const Two64: nat := 0x1_0000_0000_0000_0000
  const Two80: nat := 0x1_0000_0000_0000_0000_0000
  const Two96: nat := 0x1_0000_0000_0000_0000_0000_0000
  const Two112: nat := 0x1_0000_0000_0000_0000_0000_0000_0000

  datatype Family = V4 | V6

  /** The outcome of `parseIP`: invalid, or a family and an integer. */
  datatype Normalised = Invalid | Addr(family: Family, value: nat)

  /**
   What the standard library's text parser hands to `parseIP`: nothing, for
   text that is not an address, or the bytes of the address.
   */
  datatype Literal = Unparseable | Parsed(bytes: seq<byte>)

  predicate InMapped(n: nat)
  {
    MappedMin <= n <= MappedMax
  }

  predicate InSixToFour(n: nat)
  {
    SixToFourMin <= n <= SixToFourMax
  }

  predicate InTeredo(n: nat)
  {
    TeredoMin <= n <= TeredoMax
  }

  /** `big.Int.Not`: the two's-complement bitwise negation, -x - 1. */
  function Not(x: int): int
  {
    -x - 1
  }

  /** `big.Int.And` with 0xFFFFFFFF: the low 32 bits of the two's-complement value. */
  function AndLow32(x: int): nat
  {
    x % Two32
  }

  /**
   The bracket checks of `parseIP` on the 128-bit value `n`, in source order:
   IPv4-mapped, then 6to4, then Teredo; anything else stays IPv6.
   */
  function Normalise(n: nat): (r: Normalised)
    ensures r.Addr?
    ensures r.family == V4 ==> r.value < Two32
    ensures InMapped(n) ==> r == Addr(V4, n % Two32)
    ensures !InMapped(n) && InSixToFour(n) ==> r == Addr(V4, (n / Two80) % Two32)
    ensures !InMapped(n) && !InSixToFour(n) && InTeredo(n) ==> r == Addr(V4, Low32Bits - n % Two32)
    ensures r == Addr(V6, n) <==> !InMapped(n) && !InSixToFour(n) && !InTeredo(n)
  {
    if InMapped(n) then
      Addr(V4, n - MappedMin)
    else if InSixToFour(n) then
      Addr(V4, AndLow32(n / Two80))
    else if InTeredo(n) then
      Addr(V4, AndLow32(Not(n)))
    else
      Addr(V6, n)
  }

  /** `net.IP.To4` succeeds: a 4-byte value, or 16 bytes of the form ::ffff:a.b.c.d. */
  predicate HasV4Form(ip: seq<byte>)
  {
    || |ip| == 4
    || (&& |ip| == 16
        && (forall i :: 0 <= i < 10 ==> ip[i] == 0)
        && ip[10] == 0xFF && ip[11] == 0xFF)
  }

  /** The four bytes `net.IP.To4` returns. */
  function V4Part(ip: seq<byte>): (r: seq<byte>)
    requires HasV4Form(ip)
    ensures |r| == 4
  {
    if |ip| == 4 then ip else ip[12..]
  }

  /**
   `parseIP`: invalid when the text did not parse or the value has neither
   a 4- nor a 16-byte form; IPv4 when `To4` succeeds; otherwise the
   bracket checks on the 16-byte value.
   */
  function ParseIP(lit: Literal): (r: Normalised)
    ensures r.Invalid? <==> lit.Unparseable? || (|lit.bytes| != 4 && |lit.bytes| != 16)
    ensures r.Addr? && r.family == V4 ==> r.value < Two32
    ensures r.Addr? && r.family == V6 ==>
      r.value < Two128 && !InMapped(r.value) && !InSixToFour(r.value) && !InTeredo(r.value)
    ensures lit.Parsed? && |lit.bytes| == 4 ==> r == Addr(V4, BigEndian(lit.bytes))
    ensures lit.Parsed? && |lit.bytes| == 16 ==> r == Normalise(BigEndian(lit.bytes))
  {
    match lit
    case Unparseable => Invalid
    case Parsed(ip) =>
      MappedFormIsMappedBracket(ip);
      if HasV4Form(ip) then
        BigEndianBound(V4Part(ip));
        Addr(V4, BigEndian(V4Part(ip)))
      else if |ip| == 16 then
        BigEndianBound(ip);
        Normalise(BigEndian(ip))
      else
        Invalid
  }

  lemma BigEndianBound(s: seq<byte>)
    ensures |s| == 4 ==> BigEndian(s) < Two32
    ensures |s| == 16 ==> BigEndian(s) < Two128
  {
    BigEndianOfReverse(Reverse(s));
    assert Reverse(Reverse(s)) == s;
    LittleEndianBound(Reverse(s));
    Pow256Values();
  }

  /**
   The `To4` shortcut and the IPv4-mapped bracket agree: a 16-byte value has
   the ::ffff:a.b.c.d form exactly when its integer lies in the bracket, and
   then its last four bytes are the integer minus the bracket's start.
   */
  lemma MappedFormIsMappedBracket(ip: seq<byte>)
    ensures |ip| == 16 ==> (HasV4Form(ip) <==> InMapped(BigEndian(ip)))
    ensures |ip| == 16 && HasV4Form(ip) ==> BigEndian(V4Part(ip)) == BigEndian(ip) - MappedMin
  {
    if |ip| != 16 {
      return;
    }
    var high, low := ip[..12], ip[12..];
    assert ip == high + low;
    BigEndianSplit(high, low);
    Pow256Values();
    BigEndianBound(low);
    var top, mid := ip[..10], ip[10..12];
    assert high == top + mid;
    BigEndianSplit(top, mid);
    assert Pow256(2) == 0x1_0000;
    assert BigEndian(mid) == ip[10] as int * 0x100 + ip[11] as int by {
      assert mid[..1] == [ip[10]];
      assert [ip[10]][..0] == [];
      assert BigEndian([ip[10]]) == ip[10];
    }
    BigEndianZero(top);
    assert (forall i :: 0 <= i < 10 ==> ip[i] == 0) <==> (forall i :: 0 <= i < |top| ==> top[i] == 0);
    assert BigEndian(ip) == BigEndian(high) * Two32 + BigEndian(low);
    assert InMapped(BigEndian(ip)) <==> BigEndian(high) == 0xFFFF;
  }

  /** The IPv4-mapped bracket is exactly the addresses whose top 96 bits are ::ffff. */
  lemma MappedBracketIsPrefix(n: nat)
    ensures InMapped(n) <==> n / Two32 == 0xFFFF
  {
  }

  /** The 6to4 bracket is exactly the addresses whose top 16 bits are 2002. */
  lemma SixToFourBracketIsPrefix(n: nat)
    ensures InSixToFour(n) <==> n / Two112 == 0x2002
  {
  }

  /** The Teredo bracket is exactly the addresses whose top 32 bits are 2001:0000. */
  lemma TeredoBracketIsPrefix(n: nat)
    ensures InTeredo(n) <==> n / Two96 == 0x2001_0000
  {
  }

  /** No address lies in two brackets, so the order of the checks never decides the result. */
  lemma BracketsDisjoint(n: nat)
    ensures !(InMapped(n) && InSixToFour(n))
    ensures !(InMapped(n) && InTeredo(n))
    ensures !(InSixToFour(n) && InTeredo(n))
  {
  }

  /** ::ffff:a.b.c.d for the IPv4 address `a`. */
  function MappedOf(a: uint32): (n: nat)
    ensures InMapped(n)
  {
    MappedMin + a
  }

  /** A 6to4 address 2002:AABB:CCDD::/48 carrying `a`, with any low 80 bits. */
  function SixToFourOf(a: uint32, rest: nat): (n: nat)
    requires rest < Two80
    ensures InSixToFour(n)
  {
    SixToFourMin + a * Two80 + rest
  }

  /** A Teredo address carrying client `a` complemented, with any server, flags and port. */
  function TeredoOf(a: uint32, middle: nat): (n: nat)
    requires middle < Two64
    ensures InTeredo(n)
  {
    TeredoMin + middle * Two32 + (Low32Bits - a)
  }

  lemma NormaliseMapped(a: uint32)
    ensures Normalise(MappedOf(a)) == Addr(V4, a)
  {
  }

  lemma NormaliseSixToFour(a: uint32, rest: nat)
    requires rest < Two80
    ensures Normalise(SixToFourOf(a, rest)) == Addr(V4, a)
  {
    var n := SixToFourOf(a, rest);
    assert n == (0x2002 * Two32 + a) * Two80 + rest;
    assert n / Two80 == 0x2002 * Two32 + a;
  }

  lemma NormaliseTeredo(a: uint32, middle: nat)
    requires middle < Two64
    ensures Normalise(TeredoOf(a, middle)) == Addr(V4, a)
  {
    var n := TeredoOf(a, middle);
    assert n == (0x2001_0000 * Two64 + middle) * Two32 + (Low32Bits - a);
    assert n % Two32 == Low32Bits - a;
  }

  /** The Teredo address 2001:0:4136:e378:8000:63bf:3fff:fdd2 carries the client 192.0.2.45. */
  lemma TeredoExample()
    ensures Normalise(0x2001_0000_4136_e378_8000_63bf_3fff_fdd2) == Addr(V4, 0xC000_022D)
  {
    assert 0x2001_0000_4136_e378_8000_63bf_3fff_fdd2 % Two32 == 0x3fff_fdd2;
  }

  /** The 16-byte form of ::ffff:8.8.8.8 parses as the IPv4 address 8.8.8.8. */
  lemma MappedExample()
    ensures ParseIP(Parsed([0, 0, 0, 0, 0, 0, 0, 0, 0, 0, 0xFF, 0xFF, 8, 8, 8, 8])) == Addr(V4, 0x0808_0808)
  {
    var ip: seq<byte> := [0, 0, 0, 0, 0, 0, 0, 0, 0, 0, 0xFF, 0xFF, 8, 8, 8, 8];
    assert HasV4Form(ip);
    var v4 := V4Part(ip);
    assert v4 == [8, 8, 8, 8];
    assert v4[..3] == [8, 8, 8] && v4[..2] == [8, 8] && v4[..1] == [8] && v4[..0] == [];
    assert BigEndian(v4[..1]) == 0x08;
    assert v4[..2][..1] == v4[..1];
    assert BigEndian(v4[..2]) == 0x0808;
    assert v4[..3][..2] == v4[..2];
    assert BigEndian(v4[..3]) == 0x08_0808;
    assert v4[..3] == v4[..|v4| - 1];
    assert BigEndian(v4) == 0x0808_0808;
  }
}
