/** The routing-socket encodings: packed sockaddrs, the embedded interface scope, and the message FreeBSD writes. */
module RouteSocket {
  import opened Prelude
  import opened Inet

  // ---- padding --------------------------------------------------------------

  predicate Alignment(align: nat) {
    align == 4 || align == 8
  }

  /** `x | (align - 1)` on non-negative integers. */
  function OrLow(x: nat, align: nat): nat
    requires Alignment(align)
  {
    x - x % align + (align - 1)
  }

  /** ROUNDUP with align 4 on Darwin, SA_SIZE with align 8 on FreeBSD. */
  function RoundUp(len: nat, align: nat): nat
    requires Alignment(align)
  {
    if len > 0 then 1 + OrLow(len - 1, align) else align
  }

  /** The arithmetic form is the bitwise OR of the macros, for every length byte. */
  lemma OrLowIsBitwiseOr(x: bv8)
    ensures OrLow(x as nat, 4) == (x | 3) as nat
    ensures OrLow(x as nat, 8) == (x | 7) as nat
  {
  }

  lemma RoundUp4(len: nat)
    requires len > 0
    ensures RoundUp(len, 4) == (len + 3) / 4 * 4
  {
  }

  lemma RoundUp8(len: nat)
    requires len > 0
    ensures RoundUp(len, 8) == (len + 7) / 8 * 8
  {
  }

  lemma RoundUpBounds(len: nat, align: nat)
    requires Alignment(align)
    ensures RoundUp(len, align) % align == 0
    ensures len <= RoundUp(len, align) && 0 < RoundUp(len, align)
    ensures len > 0 ==> RoundUp(len, align) < len + align
  {
    if len > 0 {
      if align == 4 {
        RoundUp4(len);
      } else {
        RoundUp8(len);
      }
    }
  }

  /** The least positive multiple of the alignment that is at least the length. */
  lemma RoundUpIsLeastMultiple(len: nat, align: nat, m: nat)
    requires Alignment(align) && m > 0 && m % align == 0 && m >= len
    ensures RoundUp(len, align) <= m
  {
    RoundUpBounds(len, align);
    var r := RoundUp(len, align);
    if align == 4 {
      assert r / 4 <= m / 4;
    } else {
      assert r / 8 <= m / 8;
    }
  }

  // ---- packed sockaddrs -----------------------------------------------------

  function Zeros(n: nat): seq<Octet> {
    seq(n, _ => 0)
  }

  /** A sockaddr states its own length in its first octet; the empty one stands for sa_len == 0. */
  predicate Sockaddr(s: seq<Octet>) {
    s == [] || (|s| < 256 && s[0] as nat == |s|)
  }

  function Pad(s: seq<Octet>, align: nat): (p: seq<Octet>)
    requires Alignment(align)
    ensures |p| == RoundUp(|s|, align) && s <= p
  {
    RoundUpBounds(|s|, align);
    s + Zeros(RoundUp(|s|, align) - |s|)
  }

  /** `addrs & (1 << i)`. */
  predicate Bit(addrs: nat, i: nat) {
    if i == 0 then addrs % 2 == 1 else Bit(addrs / 2, i - 1)
  }

  /** The arithmetic form is the bit test, for the eight slots there are. */
  lemma {:induction false} BitIsMask(addrs: bv8, i: nat)
    requires i < 8
    ensures Bit(addrs as nat, i) <==> (addrs >> i) & 1 == 1
  {
    if i == 0 {
      assert addrs as nat % 2 == (addrs & 1) as nat;
    } else {
      assert (addrs >> 1) as nat == addrs as nat / 2;
      BitIsMask(addrs >> 1, i - 1);
      assert (addrs >> 1) >> (i - 1) == addrs >> i;
    }
  }

  /** The sockaddrs of slots `i` onwards that the bitmask announces, back to back. */
  function Pack(addrs: nat, slots: seq<seq<Octet>>, i: nat, align: nat): seq<Octet>
    requires i <= |slots| && Alignment(align)
    decreases |slots| - i
  {
    if i == |slots| then []
    else (if Bit(addrs, i) then Pad(slots[i], align) else []) + Pack(addrs, slots, i + 1, align)
  }

  /** The slot is announced and its octets stand at the offset, inside the message. */
  ghost predicate Found(addrs: nat, slots: seq<seq<Octet>>, i: nat, buf: seq<Octet>, r: Option<nat>)
    requires i < |slots|
  {
    && (r.Some? <==> Bit(addrs, i))
    && (r.Some? ==> r.value < |buf| && r.value + |slots[i]| <= |buf| &&
                    buf[r.value..r.value + |slots[i]|] == slots[i] && buf[r.value] as nat == |slots[i]|)
  }

  ghost predicate AllFound(addrs: nat, slots: seq<seq<Octet>>, buf: seq<Octet>, rti: seq<Option<nat>>) {
    |rti| <= |slots| && forall i :: 0 <= i < |rti| ==> Found(addrs, slots, i, buf, rti[i])
  }

  lemma FoundNext(addrs: nat, slots: seq<seq<Octet>>, buf: seq<Octet>, rti: seq<Option<nat>>, r: Option<nat>)
    requires AllFound(addrs, slots, buf, rti) && |rti| < |slots| && Found(addrs, slots, |rti|, buf, r)
    ensures AllFound(addrs, slots, buf, rti + [r])
  {
  }

  lemma PrefixSplit(p: seq<Octet>, rest: seq<Octet>, buf: seq<Octet>, off: nat)
    requires off <= |buf| && p + rest <= buf[off..]
    ensures p <= buf[off..] && off + |p| <= |buf| && rest <= buf[off + |p|..]
  {
  }

  lemma PaddedAtOffset(s: seq<Octet>, align: nat, buf: seq<Octet>, off: nat)
    requires Alignment(align) && Sockaddr(s) && off <= |buf| && Pad(s, align) <= buf[off..]
    ensures off < |buf| && off + |s| <= |buf| && buf[off..off + |s|] == s && buf[off] as nat == |s|
  {
  }

  lemma SlotAtOffset(addrs: nat, slots: seq<seq<Octet>>, i: nat, align: nat, buf: seq<Octet>, off: nat)
    requires i < |slots| && Alignment(align) && Bit(addrs, i) && Sockaddr(slots[i])
    requires off <= |buf| && Pack(addrs, slots, i, align) <= buf[off..]
    ensures Found(addrs, slots, i, buf, Some(off))
    ensures off < |buf| && off + RoundUp(buf[off] as nat, align) <= |buf|
    ensures Pack(addrs, slots, i + 1, align) <= buf[off + RoundUp(buf[off] as nat, align)..]
  {
    PrefixSplit(Pad(slots[i], align), Pack(addrs, slots, i + 1, align), buf, off);
    PaddedAtOffset(slots[i], align, buf, off);
  }

  lemma SlotSkipped(addrs: nat, slots: seq<seq<Octet>>, i: nat, align: nat, buf: seq<Octet>)
    requires i < |slots| && Alignment(align) && !Bit(addrs, i)
    ensures Found(addrs, slots, i, buf, None)
    ensures Pack(addrs, slots, i, align) == Pack(addrs, slots, i + 1, align)
  {
  }

  /** The next slot is announced: its sockaddr stands at the offset, and its length leads to the one after. */
  lemma SlotTaken(addrs: nat, slots: seq<seq<Octet>>, align: nat, buf: seq<Octet>, rti: seq<Option<nat>>, off: nat)
    requires AllFound(addrs, slots, buf, rti) && |rti| < |slots| && Alignment(align)
    requires Bit(addrs, |rti|) && Sockaddr(slots[|rti|])
    requires off <= |buf| && Pack(addrs, slots, |rti|, align) <= buf[off..]
    ensures AllFound(addrs, slots, buf, rti + [Some(off)])
    ensures off < |buf| && off + RoundUp(buf[off] as nat, align) <= |buf|
    ensures Pack(addrs, slots, |rti| + 1, align) <= buf[off + RoundUp(buf[off] as nat, align)..]
  {
    assert AllFound(addrs, slots, buf, rti + [Some(off)]) by {
      assert Found(addrs, slots, |rti|, buf, Some(off)) by {
        SlotAtOffset(addrs, slots, |rti|, align, buf, off);
      }
      FoundNext(addrs, slots, buf, rti, Some(off));
    }
    SlotAtOffset(addrs, slots, |rti|, align, buf, off);
  }

  /** `get_rti_info`: walk the packed array by each sockaddr's own length. */
  method GetRtiInfo(addrs: nat, buf: seq<Octet>, n: nat, align: nat, ghost slots: seq<seq<Octet>>)
    returns (rti: seq<Option<nat>>)
    requires |slots| == n && Alignment(align)
    requires forall i :: 0 <= i < n ==> Sockaddr(slots[i])
    requires Pack(addrs, slots, 0, align) <= buf
    ensures |rti| == n && AllFound(addrs, slots, buf, rti)
  {
    rti := [];
    var off: nat := 0;
    assert buf[0..] == buf;
    for i := 0 to n
      invariant |rti| == i && AllFound(addrs, slots, buf, rti)
      invariant off <= |buf| && Pack(addrs, slots, i, align) <= buf[off..]
    {
      if Bit(addrs, i) {
        SlotTaken(addrs, slots, align, buf, rti, off);
        rti := rti + [Some(off)];
        off := off + RoundUp(buf[off] as nat, align);
      } else {
        SlotSkipped(addrs, slots, i, align, buf);
        FoundNext(addrs, slots, buf, rti, None);
        rti := rti + [None];
      }
    }
  }

  // ---- embedded scope -------------------------------------------------------

  /** Clear octets 2 and 3 of a link-local address. */
  function StripScope(a: In6): In6 {
    if LinkLocal(a) then a[2 := 0][3 := 0] else a
  }

  /** fill_gateway's address: the interface index goes into octets 2 and 3 of link-local addresses. */
  function EmbedScope(a: In6, ifindex: bv32): In6 {
    if LinkLocal(a) || MulticastLinkLocal(a)
    then a[2 := ((ifindex >> 8) & 0xff) as bv8][3 := (ifindex & 0xff) as bv8]
    else a
  }

  /** Stripping undoes embedding exactly for addresses whose scope octets say nothing of their own. */
  lemma StripUndoesEmbedIff(a: In6, ifindex: bv32)
    ensures StripScope(EmbedScope(a, ifindex)) == a <==>
            && (LinkLocal(a) ==> a[2] == 0 && a[3] == 0)
            && (MulticastLinkLocal(a) ==> a[2] == ((ifindex >> 8) & 0xff) as bv8 && a[3] == (ifindex & 0xff) as bv8)
  {
  }

  // ---- the message FreeBSD writes -------------------------------------------

  const AF_INET: Octet := 2
  const AF_INET6: Octet := 28

  /** struct sockaddr_in for an IPv4 address of four octets. */
  function Sin(addr: seq<Octet>): (s: seq<Octet>)
    requires |addr| == 4
    ensures |s| == 16
  {
    [16, AF_INET, 0, 0] + addr + Zeros(8)
  }

  /** struct sockaddr_in6. */
  function Sin6(addr: In6): (s: seq<Octet>)
    ensures |s| == 28
  {
    [28, AF_INET6, 0, 0, 0, 0, 0, 0] + addr + Zeros(4)
  }

  /** RTA_DST | RTA_GATEWAY | RTA_NETMASK. */
  const DEFAULT_ADDRS: nat := 7

  function DefaultSlots(gw: In6, ifindex: bv32): seq<seq<Octet>> {
    [Sin(Zeros(4)), Sin6(EmbedScope(gw, ifindex)), Sin(Zeros(4))]
  }

  /** The octets after `s` has been copied over them at an offset. */
  function Overlay(base: seq<Octet>, at: nat, s: seq<Octet>): (r: seq<Octet>)
    requires at + |s| <= |base|
    ensures |r| == |base|
  {
    base[..at] + s + base[at + |s|..]
  }

  method Memcpy(space: array<Octet>, at: nat, s: seq<Octet>)
    requires at + |s| <= space.Length
    modifies space
    ensures space[..] == Overlay(old(space[..]), at, s)
  {
    for i := 0 to |s|
      invariant forall k :: 0 <= k < space.Length ==>
                  space[k] == if at <= k < at + i then s[k - at] else old(space[k])
    {
      space[at + i] := s[i];
    }
  }

  lemma PackedDefault(gw: In6, ifindex: bv32)
    ensures Pack(DEFAULT_ADDRS, DefaultSlots(gw, ifindex), 0, 8) ==
            Sin(Zeros(4)) + Sin6(EmbedScope(gw, ifindex)) + Zeros(4) + Sin(Zeros(4))
  {
    var slots := DefaultSlots(gw, ifindex);
    assert Bit(DEFAULT_ADDRS, 0) && Bit(DEFAULT_ADDRS, 1) && Bit(DEFAULT_ADDRS, 2);
    assert Pack(DEFAULT_ADDRS, slots, 3, 8) == [];
    assert Pad(slots[0], 8) == slots[0] && Pad(slots[2], 8) == slots[2];
    assert Pad(slots[1], 8) == slots[1] + Zeros(4);
    assert Pack(DEFAULT_ADDRS, slots, 2, 8) == slots[2];
    assert Pack(DEFAULT_ADDRS, slots, 1, 8) == slots[1] + Zeros(4) + slots[2];
  }

  /** The gateway needs its interface said: fe80::/10, or ff02::/16 with any flags. */
  predicate Scoped(a: In6) {
    (a[0] == 0xfe && 0x80 <= a[1] <= 0xbf) || (a[0] == 0xff && a[1] & 0x0f == 0x02)
  }

  /**
   * The 64 octets of the message: two empty sockaddr_in of length 16 around a sockaddr_in6 of length
   * 28 padded to 32, whose address is the gateway's with the interface index, high octet first, in
   * the third and fourth octet where a scope is needed.
   */
  lemma MessageOctets(gw: In6, ifindex: bv32, k: nat)
    requires k < 16
    ensures var m := Pack(DEFAULT_ADDRS, DefaultSlots(gw, ifindex), 0, 8);
            && |m| == 64 && m[..16] == m[48..] == [16, 2, 0, 0, 0, 0, 0, 0, 0, 0, 0, 0, 0, 0, 0, 0]
            && m[16..24] == [28, 28, 0, 0, 0, 0, 0, 0] && m[40..48] == [0, 0, 0, 0, 0, 0, 0, 0]
            && m[24 + k] == if Scoped(gw) && k == 2 then ((ifindex >> 8) & 0xff) as bv8
                            else if Scoped(gw) && k == 3 then (ifindex & 0xff) as bv8
                            else gw[k]
  {
    PackedDefault(gw, ifindex);
    LinkLocalIsRange(gw);
    var e := EmbedScope(gw, ifindex);
    var sin, sin6 := Sin(Zeros(4)), Sin6(e);
    assert sin == [16, 2, 0, 0, 0, 0, 0, 0, 0, 0, 0, 0, 0, 0, 0, 0];
    var m := sin + sin6 + Zeros(4) + sin;
    assert m[..16] == sin && m[48..] == sin;
    assert m[16..24] == sin6[..8] && m[24 + k] == sin6[8 + k] == e[k];
    assert m[40..48] == Zeros(8);
  }

  /** Three copies at offsets 0, 16 and 48 into zeros. */
  lemma LaidOut(dst: seq<Octet>, gw6: seq<Octet>, mask: seq<Octet>)
    requires |dst| == 16 && |gw6| == 28 && |mask| == 16
    ensures Overlay(Overlay(Overlay(Zeros(512), 0, dst), 16, gw6), 48, mask)[..64] == dst + gw6 + Zeros(4) + mask
  {
    var a := Overlay(Zeros(512), 0, dst);
    var b := Overlay(a, 16, gw6);
    assert a == dst + Zeros(496);
    assert b == dst + gw6 + Zeros(468);
    assert b[..48] == dst + gw6 + Zeros(4);
  }

  lemma Lengths(gw: In6)
    ensures RoundUp(Sin(Zeros(4))[0] as nat, 8) == 16 && RoundUp(Sin6(gw)[0] as nat, 8) == 32
  {
  }

  /** `route_msg`: lay the three sockaddrs out in the zeroed buffer; `len` is what follows the header. */
  method RouteMsg(gw: In6, ifindex: bv32) returns (space: array<Octet>, len: nat)
    ensures len <= space.Length
    ensures space[..len] == Pack(DEFAULT_ADDRS, DefaultSlots(gw, ifindex), 0, 8)
  {
    space := new Octet[512](_ => 0);
    var dst, gw6, mask := Sin(Zeros(4)), Sin6(EmbedScope(gw, ifindex)), Sin(Zeros(4));
    Lengths(EmbedScope(gw, ifindex));
    assert space[..] == Zeros(512);
    Memcpy(space, 0, dst);
    var cp := RoundUp(dst[0] as nat, 8);
    Memcpy(space, cp, gw6);
    cp := cp + RoundUp(gw6[0] as nat, 8);
    Memcpy(space, cp, mask);
    len := cp + RoundUp(mask[0] as nat, 8);
    assert space[..len] == space[..][..64] == dst + gw6 + Zeros(4) + mask by {
      LaidOut(dst, gw6, mask);
    }
    PackedDefault(gw, ifindex);
  }

  /** sin6_addr of the sockaddr at an offset. */
  function AddrAt(buf: seq<Octet>, off: nat): In6
    requires off + 28 <= |buf|
  {
    buf[off + 8..off + 24]
  }

  lemma DefaultSlotsAreSockaddrs(gw: In6, ifindex: bv32)
    ensures var slots := DefaultSlots(gw, ifindex);
            && Sockaddr(slots[0]) && Sockaddr(slots[1]) && Sockaddr(slots[2])
            && slots[1][8..24] == EmbedScope(gw, ifindex)
  {
  }

  lemma SliceOfSlice(s: seq<Octet>, a: nat, b: nat, c: nat, d: nat)
    requires a <= b <= |s| && c <= d <= b - a
    ensures s[a..b][c..d] == s[a + c..a + d]
  {
    var l, r := s[a..b][c..d], s[a + c..a + d];
    assert |l| == |r|;
    forall i | 0 <= i < |l|
      ensures l[i] == r[i]
    {
    }
  }

  lemma DefaultSlotsFound(gw: In6, ifindex: bv32, buf: seq<Octet>, rti: seq<Option<nat>>)
    requires |rti| == 3 && AllFound(DEFAULT_ADDRS, DefaultSlots(gw, ifindex), buf, rti)
    ensures rti[0].Some? && rti[1].Some?
    ensures var d := rti[0].value; d + 16 <= |buf| && buf[d] as nat == 16 && buf[d..d + 16] == Sin(Zeros(4))
    ensures var g := rti[1].value; g + 28 <= |buf| && AddrAt(buf, g) == EmbedScope(gw, ifindex)
  {
    var slots := DefaultSlots(gw, ifindex);
    assert Found(DEFAULT_ADDRS, slots, 0, buf, rti[0]) && Found(DEFAULT_ADDRS, slots, 1, buf, rti[1]);
    assert Bit(DEFAULT_ADDRS, 0) && Bit(DEFAULT_ADDRS, 1);
    var g := rti[1].value;
    DefaultSlotsAreSockaddrs(gw, ifindex);
    SliceOfSlice(buf, g, g + 28, 8, 24);
  }

  /** Reading the message back: the default destination, and the gateway after scope stripping. */
  method ReadDefault(buf: seq<Octet>, ghost gw: In6, ghost ifindex: bv32) returns (dst: seq<Octet>, via: In6)
    requires buf == Pack(DEFAULT_ADDRS, DefaultSlots(gw, ifindex), 0, 8)
    ensures dst == Sin(Zeros(4))
    ensures via == StripScope(EmbedScope(gw, ifindex))
  {
    DefaultSlotsAreSockaddrs(gw, ifindex);
    var rti := GetRtiInfo(DEFAULT_ADDRS, buf, 3, 8, DefaultSlots(gw, ifindex));
    DefaultSlotsFound(gw, ifindex, buf, rti);
    var d := rti[0].value;
    dst := buf[d..d + buf[d] as nat];
    via := StripScope(AddrAt(buf, rti[1].value));
  }

  /** For a gateway without scope octets of its own, what is read back is the gateway that was written. */
  method WriteThenRead(gw: In6, ifindex: bv32) returns (via: In6)
    requires LinkLocal(gw) ==> gw[2] == 0 && gw[3] == 0
    requires !MulticastLinkLocal(gw)
    ensures via == gw
  {
    var space, len := RouteMsg(gw, ifindex);
    var dst;
    dst, via := ReadDefault(space[..len], gw, ifindex);
    StripUndoesEmbedIff(gw, ifindex);
  }
}
