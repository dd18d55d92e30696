/**
 * The host's derived address: an advertised /64 combined with the modified EUI-64 of its MAC
 * (section 2.5.1 and Appendix A of RFC 4291).
 */
module Eui64 {
  import opened Prelude
  import opened Inet
  import opened Text

  // ---- addresses as 128-bit integers ----------------------------------------

  /** int.from_bytes(a, "big") for eight octets. */
  function Word64(a: seq<Octet>): bv128
    requires |a| == 8
  {
    (a[0] as bv128 << 56) | (a[1] as bv128 << 48) | (a[2] as bv128 << 40) | (a[3] as bv128 << 32) |
    (a[4] as bv128 << 24) | (a[5] as bv128 << 16) | (a[6] as bv128 << 8) | (a[7] as bv128)
  }

  /** int(IPv6Address(a)). */
  function Value(a: In6): bv128 {
    (Word64(a[..8]) << 64) | Word64(a[8..])
  }

  function Low8(x: bv128): Octet {
    (x & 0xff) as bv8
  }

  function Unword64(x: bv128): (a: seq<Octet>)
    ensures |a| == 8
  {
    [Low8(x >> 56), Low8(x >> 48), Low8(x >> 40), Low8(x >> 32),
     Low8(x >> 24), Low8(x >> 16), Low8(x >> 8), Low8(x)]
  }

  /** IPv6Address(x).packed. */
  function FromValue(x: bv128): In6 {
    Unword64(x >> 64) + Unword64(x)
  }

  // ---- MAC text -------------------------------------------------------------

  /** int(x, 16) for plain hexadecimal digits, then the 0..255 check of bytes(). */
  function OctetFromHex(s: string): Option<Octet> {
    if s != "" && (forall c :: c in s ==> IsHex(c)) && HexNumber(s) < 256 then Some(HexNumber(s) as bv8) else None
  }

  function OctetsFromHex(fields: seq<string>): (r: Option<seq<Octet>>)
    ensures r.Some? ==> |r.value| == |fields|
  {
    if fields == [] then Some([])
    else
      match (OctetFromHex(fields[0]), OctetsFromHex(fields[1..]))
      case (Some(b), Some(bs)) => Some([b] + bs)
      case _ => None
  }

  /** The six octets of a colon-separated MAC, or None when it is malformed. */
  function ParseMac(mac: string): (r: Option<seq<Octet>>)
    ensures r.Some? ==> |r.value| == 6
  {
    var r := OctetsFromHex(Split(mac, ':'));
    if r.Some? && |r.value| == 6 then r else None
  }

  // ---- derivation -----------------------------------------------------------

  function InterfaceId(mb: seq<Octet>): (iid: seq<Octet>)
    requires |mb| == 6
    ensures |iid| == 8
  {
    [mb[0] ^ 0x02, mb[1], mb[2], 0xff, 0xfe, mb[3], mb[4], mb[5]]
  }

  /** The network address of a /64 has a zero interface identifier. */
  predicate IsNetwork64(net: In6) {
    net[8..] == [0, 0, 0, 0, 0, 0, 0, 0]
  }

  /** IPv6Network(dst/64, strict=False).network_address. */
  function Network64(dst: In6): (net: In6)
    ensures IsNetwork64(net)
  {
    dst[..8] + [0, 0, 0, 0, 0, 0, 0, 0]
  }

  function Combine(net: In6, mb: seq<Octet>): In6
    requires |mb| == 6
  {
    FromValue(Value(net) | Word64(InterfaceId(mb)))
  }

  function DeriveGua(net: In6, mac: string): Option<In6> {
    var mb := ParseMac(mac);
    if mb.None? then None else Some(Combine(net, mb.value))
  }

  /** The MAC that a derived address was built from. */
  function MacOf(a: In6): (mb: seq<Octet>)
    ensures |mb| == 6
  {
    [a[8] ^ 0x02, a[9], a[10], a[13], a[14], a[15]]
  }

  lemma WordRoundTrip(a: seq<Octet>)
    requires |a| == 8
    ensures Unword64(Word64(a)) == a
    ensures Word64(a) >> 64 == 0
  {
  }

  lemma JoinedWords(hi: bv128, lo: bv128, a: seq<Octet>, b: seq<Octet>)
    requires hi >> 64 == 0 && lo >> 64 == 0
    requires Unword64(hi) == a && Unword64(lo) == b
    ensures FromValue((hi << 64) | lo) == a + b
  {
  }

  /** Integer value and packed octets are inverse views of an address. */
  lemma ValueRoundTrip(a: In6)
    ensures FromValue(Value(a)) == a
  {
    WordRoundTrip(a[..8]);
    WordRoundTrip(a[8..]);
    JoinedWords(Word64(a[..8]), Word64(a[8..]), a[..8], a[8..]);
    assert a == a[..8] + a[8..];
  }

  /** The integer OR is an exact concatenation of the prefix and the interface identifier. */
  lemma OrIsConcatenation(net: In6, mb: seq<Octet>)
    requires IsNetwork64(net) && |mb| == 6
    ensures Combine(net, mb) == net[..8] + InterfaceId(mb)
  {
  }

  /** A derived address stays in its prefix, keeps the prefix's class, and gives its MAC back. */
  lemma DerivedGuaRecovers(net: In6, mb: seq<Octet>)
    requires IsNetwork64(net) && |mb| == 6
    ensures Network64(Combine(net, mb)) == net
    ensures GlobalOrUla(Combine(net, mb)) == GlobalOrUla(net)
    ensures MacOf(Combine(net, mb)) == mb
  {
    OrIsConcatenation(net, mb);
    var g := net[..8] + InterfaceId(mb);
    assert g[..8] == net[..8] && net == net[..8] + net[8..];
    assert MacOf(g) == mb;
  }

  /** Distinct (prefix, MAC) pairs never share a derived address. */
  lemma DerivedGuaInjective(net: In6, net': In6, mb: seq<Octet>, mb': seq<Octet>)
    requires IsNetwork64(net) && IsNetwork64(net') && |mb| == |mb'| == 6
    requires Combine(net, mb) == Combine(net', mb')
    ensures net == net' && mb == mb'
  {
    DerivedGuaRecovers(net, mb);
    DerivedGuaRecovers(net', mb');
  }
}
