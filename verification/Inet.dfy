/** IPv6 addresses as sixteen octets in network order, and the address classes the daemons test. */
module Inet {

  type Octet = bv8

  type In6 = a: seq<Octet> | |a| == 16 witness seq(16, _ => 0)

  /** 192.0.0.11, the IPv6-resolved IPv4 gateway. */
  const SENTINEL: nat := 0xc000000b

  /** 2000::/3 or fc00::/7. */
  predicate GlobalOrUla(a: In6) {
    0x20 <= a[0] <= 0x3f || a[0] == 0xfc || a[0] == 0xfd
  }

  /** Text starting with "fe80": the first sixteen bits are exactly fe80. */
  predicate StartsFe80(a: In6) {
    a[0] == 0xfe && a[1] == 0x80
  }

  /** IN6_IS_ADDR_LINKLOCAL: fe80::/10. */
  predicate LinkLocal(a: In6) {
    a[0] == 0xfe && a[1] & 0xc0 == 0x80
  }

  /** IN6_IS_ADDR_MC_LINKLOCAL: ff02::/16 with any flag bits. */
  predicate MulticastLinkLocal(a: In6) {
    a[0] == 0xff && a[1] & 0x0f == 0x02
  }

  /** memcmp(a, b) < 0 over equally long octet strings. */
  predicate Before(a: seq<Octet>, b: seq<Octet>)
    requires |a| == |b|
  {
    a != [] && (a[0] < b[0] || (a[0] == b[0] && Before(a[1..], b[1..])))
  }

  /** The byte range test is the two prefixes: the top three bits 001, or the top seven 1111110. */
  lemma GlobalOrUlaIsPrefixes(a: In6)
    ensures GlobalOrUla(a) <==> a[0] & 0xe0 == 0x20 || a[0] & 0xfe == 0xfc
  {
    var b := a[0];
    assert 0x20 <= b <= 0x3f <==> b & 0xe0 == 0x20;
    assert b == 0xfc || b == 0xfd <==> b & 0xfe == 0xfc;
  }

  /** fe80::/10 is the range fe80 to febf, which holds the addresses whose text starts with "fe80". */
  lemma LinkLocalIsRange(a: In6)
    ensures LinkLocal(a) <==> a[0] == 0xfe && 0x80 <= a[1] <= 0xbf
    ensures StartsFe80(a) ==> LinkLocal(a)
    ensures LinkLocal(a) ==> !GlobalOrUla(a) && !MulticastLinkLocal(a)
  {
    var b := a[1];
    assert b & 0xc0 == 0x80 <==> 0x80 <= b <= 0xbf;
  }

  /** The octets from position `i` decide. */
  ghost predicate LowerAt(a: seq<Octet>, b: seq<Octet>, i: nat)
    requires |a| == |b|
  {
    i < |a| && a[..i] == b[..i] && a[i] < b[i]
  }

  lemma LowerAtTail(a: seq<Octet>, b: seq<Octet>, i: nat)
    requires |a| == |b| && LowerAt(a, b, i)
    ensures if i == 0 then a[0] < b[0] else a[0] == b[0] && LowerAt(a[1..], b[1..], i - 1)
  {
    if i > 0 {
      assert a[0] == a[..i][0] == b[..i][0] == b[0];
      assert a[1..][..i - 1] == a[..i][1..] && b[1..][..i - 1] == b[..i][1..];
    }
  }

  /** memcmp looks at the first octet in which the two differ. */
  lemma {:induction false} BeforeIsFirstDifference(a: seq<Octet>, b: seq<Octet>)
    requires |a| == |b|
    ensures Before(a, b) <==> exists i: nat :: LowerAt(a, b, i)
  {
    if a != [] {
      BeforeIsFirstDifference(a[1..], b[1..]);
      if a[0] < b[0] {
        assert LowerAt(a, b, 0);
      } else if i: nat :| LowerAt(a[1..], b[1..], i) && a[0] == b[0] {
        assert a[..i + 1] == [a[0]] + a[1..][..i] && b[..i + 1] == [b[0]] + b[1..][..i];
        assert LowerAt(a, b, i + 1);
      }
      if i: nat :| LowerAt(a, b, i) {
        LowerAtTail(a, b, i);
      }
    }
  }

  lemma {:induction false} BeforeIsStrictTotal(a: seq<Octet>, b: seq<Octet>)
    requires |a| == |b|
    ensures !(Before(a, b) && Before(b, a))
    ensures a != b ==> Before(a, b) || Before(b, a)
    ensures a == b ==> !Before(a, b)
  {
    if a != [] {
      BeforeIsStrictTotal(a[1..], b[1..]);
      if a[0] == b[0] && a[1..] == b[1..] {
        assert a == [a[0]] + a[1..] && b == [b[0]] + b[1..];
      }
    }
  }

  lemma {:induction false} BeforeTransitive(a: seq<Octet>, b: seq<Octet>, c: seq<Octet>)
    requires |a| == |b| == |c|
    requires Before(a, b) && Before(b, c)
    ensures Before(a, c)
  {
    if a[0] == b[0] == c[0] {
      BeforeTransitive(a[1..], b[1..], c[1..]);
    }
  }
}
