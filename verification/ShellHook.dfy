/**
 * The address text that the one-shot lease hook builds, read under section 2.2 of RFC 4291 and
 * compared with the address the daemon derives.
 */
module ShellHook {
  import opened Prelude
  import opened Inet
  import opened Text
  import opened Eui64

  // ---- text form of an IPv6 address -----------------------------------------

  /** One to four hexadecimal digits. */
  predicate Group(s: string) {
    HexField(s) && |s| <= 4
  }

  ghost predicate Groups(fields: seq<string>) {
    forall i :: 0 <= i < |fields| ==> Group(fields[i])
  }

  function Fields(s: string): seq<string> {
    if s == "" then [] else Split(s, ':')
  }

  /** Where the text has its first "::", or its length. */
  function DoubleColon(s: string): (n: nat)
    ensures n <= |s|
    ensures n < |s| ==> n + 2 <= |s| && s[n] == ':' && s[n + 1] == ':'
  {
    if |s| < 2 then |s| else if s[0] == ':' && s[1] == ':' then 0 else 1 + DoubleColon(s[1..])
  }

  function GroupValue(s: string): nat
    requires Group(s)
  {
    HexNumber(s)
  }

  function Values(fields: seq<string>): (v: seq<nat>)
    requires forall i :: 0 <= i < |fields| ==> Group(fields[i])
    ensures |v| == |fields| && forall i :: 0 <= i < |v| ==> v[i] == GroupValue(fields[i])
  {
    seq(|fields|, i requires 0 <= i < |fields| => GroupValue(fields[i]))
  }

  function ZeroGroups(n: nat): seq<nat> {
    seq(n, _ => 0)
  }

  /** Eight groups written out in full. */
  function FullForm(f: seq<string>): Option<seq<nat>> {
    if |f| == 8 && (forall i :: 0 <= i < |f| ==> Group(f[i])) then Some(Values(f)) else None
  }

  /** The groups on either side of "::", which stands for at least one group of zeros. */
  function Compressed(l: seq<string>, r: seq<string>): Option<seq<nat>> {
    if |l| + |r| <= 7 && (forall i :: 0 <= i < |l| ==> Group(l[i])) && (forall i :: 0 <= i < |r| ==> Group(r[i]))
    then Some(Values(l) + ZeroGroups(8 - |l| - |r|) + Values(r))
    else None
  }

  /** The eight groups a text denotes. */
  function Denotes(s: string): Option<seq<nat>> {
    var n := DoubleColon(s);
    if n == |s| then FullForm(Fields(s)) else Compressed(Fields(s[..n]), Fields(s[n + 2..]))
  }

  // ---- building the text ----------------------------------------------------

  /** ${s%%:*}. */
  function BeforeFirst(s: string): string {
    s[..FieldLength(s, ':')]
  }

  /** ${s#*:}. */
  function AfterFirst(s: string): string {
    if FieldLength(s, ':') == |s| then s else s[FieldLength(s, ':') + 1..]
  }

  /** ${s##*:}. */
  function AfterLast(s: string): string {
    var f := Split(s, ':');
    f[|f| - 1]
  }

  /** v ^ 2 on non-negative integers. */
  function XorTwo(v: nat): nat {
    if (v / 2) % 2 == 0 then v + 2 else v - 2
  }

  lemma XorTwoIsXor(b: Octet)
    ensures XorTwo(b as nat) == (b ^ 0x02) as nat
  {
  }

  /** A MAC as dnsmasq writes it: six fields of two hexadecimal digits. */
  ghost predicate MacFields(o: seq<string>) {
    |o| == 6 && forall i :: 0 <= i < 6 ==> |o[i]| == 2 && HexField(o[i])
  }

  /** The interface-identifier groups of the hook's text. */
  function HookGroups(o: seq<string>): seq<string>
    requires |o| == 6 && HexField(o[0])
  {
    [HexText(XorTwo(HexNumber(o[0])), 2, false) + o[1], o[2] + "ff", "fe" + o[3], o[4] + o[5]]
  }

  lemma PeelStep(f: string, rest: seq<string>)
    requires ':' !in f && rest != []
    ensures BeforeFirst(Join([f] + rest, ':')) == f
    ensures AfterFirst(Join([f] + rest, ':')) == Join(rest, ':')
  {
    var s := Join([f] + rest, ':');
    assert ([f] + rest)[1..] == rest;
    assert s == f + ([':'] + Join(rest, ':'));
    FieldLengthIs(f, [':'] + Join(rest, ':'), ':');
  }

  lemma NoColon(f: string)
    requires HexField(f)
    ensures ':' !in f && forall i :: 0 <= i < |f| ==> f[i] != ':'
  {
  }

  /** The text is the colon-separated MAC with these fields. */
  ghost predicate Spells(mac: string, fields: seq<string>) {
    MacFields(fields) && mac == Join(fields, ':')
  }

  /** `r` is what the fields from the k-th on spell, when the whole text is a MAC. */
  ghost predicate Remains(mac: string, fields: seq<string>, k: nat, r: string) {
    Spells(mac, fields) && k <= 6 ==> r == Join(fields[k..], ':')
  }

  /** The first field of what is left, and the rest of it. */
  method PeelOne(r: string, ghost mac: string, ghost fields: seq<string>, ghost k: nat)
    returns (first: string, rest: string)
    requires k < 5 && Remains(mac, fields, k, r)
    ensures Spells(mac, fields) ==> first == fields[k]
    ensures Remains(mac, fields, k + 1, rest)
  {
    PeelAt(mac, fields, k, r);
    first, rest := BeforeFirst(r), AfterFirst(r);
  }

  method PeelLast(r: string, ghost mac: string, ghost fields: seq<string>) returns (last: string)
    requires Remains(mac, fields, 4, r)
    ensures Spells(mac, fields) ==> last == fields[5]
  {
    LastField(mac, fields, r);
    last := AfterLast(r);
  }

  /** The octets of the MAC, peeled off one by one; a text that is no MAC still gives six strings. */
  method PeelMac(mac: string, ghost fields: seq<string>) returns (o: seq<string>)
    ensures |o| == 6
    ensures Spells(mac, fields) ==> o == fields
  {
    assert fields[0..] == fields;
    var o1, r := PeelOne(mac, mac, fields, 0);
    var o2, o3, o4, o5, o6, rest;
    o2, r := PeelOne(r, mac, fields, 1);
    o3, r := PeelOne(r, mac, fields, 2);
    o4, r := PeelOne(r, mac, fields, 3);
    o5, rest := PeelOne(r, mac, fields, 4);
    o6 := PeelLast(r, mac, fields);
    o := [o1, o2, o3, o4, o5, o6];
  }

  lemma HookText(pfx: string, o: seq<string>)
    requires |o| == 6 && HexField(o[0])
    ensures var b1 := HexText(XorTwo(HexNumber(o[0])), 2, false);
            pfx + b1 + o[1] + ":" + o[2] + "ff" + ":" + "fe" + o[3] + ":" + o[4] + o[5] ==
            pfx + Join(HookGroups(o), ':')
  {
    var b1 := HexText(XorTwo(HexNumber(o[0])), 2, false);
    JoinFour(b1 + o[1], o[2] + "ff", "fe" + o[3], o[4] + o[5]);
  }

  /** `gua_nexthop`: write the interface identifier after the prefix text; nothing when the first octet is not hex. */
  method GuaText(pfx: string, mac: string, ghost fields: seq<string>) returns (gua: Option<string>)
    ensures Spells(mac, fields) ==> gua == Some(pfx + Join(HookGroups(fields), ':'))
  {
    var o := PeelMac(mac, fields);
    if !HexField(o[0]) {
      return None;
    }
    var b1 := HexText(XorTwo(HexNumber(o[0])), 2, false);
    HookText(pfx, o);
    gua := Some(pfx + b1 + o[1] + ":" + o[2] + "ff" + ":" + "fe" + o[3] + ":" + o[4] + o[5]);
  }

  lemma JoinFour(a: string, b: string, c: string, d: string)
    ensures Join([a, b, c, d], ':') == a + ":" + b + ":" + c + ":" + d
  {
    assert [a, b, c, d][1..] == [b, c, d] && [b, c, d][1..] == [c, d] && [c, d][1..] == [d];
    assert Join([c, d], ':') == c + ":" + d;
    assert Join([b, c, d], ':') == b + ":" + (c + ":" + d);
    assert Join([a, b, c, d], ':') == a + ":" + (b + ":" + (c + ":" + d));
  }

  lemma PeelAt(mac: string, o: seq<string>, k: nat, r: string)
    requires k < 5 && Remains(mac, o, k, r)
    ensures Spells(mac, o) ==> BeforeFirst(r) == o[k]
    ensures Remains(mac, o, k + 1, AfterFirst(r))
  {
    if Spells(mac, o) {
      NoColon(o[k]);
      assert o[k..] == [o[k]] + o[k + 1..];
      PeelStep(o[k], o[k + 1..]);
    }
  }

  lemma LastField(mac: string, o: seq<string>, r: string)
    requires Remains(mac, o, 4, r)
    ensures Spells(mac, o) ==> AfterLast(r) == o[5]
  {
    if Spells(mac, o) {
      NoColon(o[4]);
      NoColon(o[5]);
      SplitOfJoin(o[4..], ':');
    }
  }

  // ---- what the text denotes ------------------------------------------------

  /** A joined list of groups neither contains "::" nor ends in a colon. */
  lemma {:induction false} DoubleColonAfterGroups(groups: seq<string>, rest: string)
    requires groups != [] && Groups(groups)
    ensures DoubleColon(Join(groups, ':') + "::" + rest) == |Join(groups, ':')|
  {
    var g := groups[0];
    assert Group(g);
    NoColon(g);
    if |groups| == 1 {
      DoubleColonAfterDigits(g, "::" + rest);
      assert Join(groups, ':') + "::" + rest == g + ("::" + rest);
    } else {
      var later := Join(groups[1..], ':');
      DoubleColonAfterGroups(groups[1..], rest);
      var tail := later + "::" + rest;
      var s := Join(groups, ':') + "::" + rest;
      assert s == g + ([':'] + tail);
      FirstOfJoin(groups[1..]);
      assert tail[0] == later[0] && ([':'] + tail)[1..] == tail;
      DoubleColonAfterDigits(g, [':'] + tail);
    }
  }

  lemma FirstOfJoin(groups: seq<string>)
    requires groups != [] && Groups(groups)
    ensures Join(groups, ':') != "" && Join(groups, ':')[0] != ':'
  {
    assert Group(groups[0]) && groups[0][0] in groups[0];
  }

  lemma {:induction false} DoubleColonAfterDigits(g: string, rest: string)
    requires (forall i :: 0 <= i < |g| ==> g[i] != ':') && |rest| >= 2
    ensures DoubleColon(g + rest) == |g| + DoubleColon(rest)
  {
    if g == "" {
      assert g + rest == rest;
    } else {
      assert (g + rest)[1..] == g[1..] + rest;
      DoubleColonAfterDigits(g[1..], rest);
    }
  }

  lemma FieldsOfJoin(groups: seq<string>)
    requires groups != [] && Groups(groups)
    ensures Fields(Join(groups, ':')) == groups
  {
    FirstOfJoin(groups);
    forall i | 0 <= i < |groups|
      ensures ':' !in groups[i]
    {
      assert Group(groups[i]);
      NoColon(groups[i]);
    }
    SplitOfJoin(groups, ':');
  }

  lemma CutAround(l: string, mid: string, r: string)
    ensures var s := l + mid + r; s[..|l|] == l && s[|l| + |mid|..] == r
  {
  }

  lemma DenotesAround(l: string, r: string)
    requires DoubleColon(l + "::" + r) == |l|
    ensures Denotes(l + "::" + r) == Compressed(Fields(l), Fields(r))
  {
    CutAround(l, "::", r);
  }

  lemma FieldsAround(left: seq<string>, right: seq<string>)
    requires left != [] && Groups(left) && Groups(right)
    ensures Denotes(Join(left, ':') + "::" + Join(right, ':')) == Compressed(left, right)
  {
    DoubleColonAfterGroups(left, Join(right, ':'));
    DenotesAround(Join(left, ':'), Join(right, ':'));
    FieldsOfJoin(left);
    if right != [] {
      FieldsOfJoin(right);
    }
  }

  lemma JoinedDenotes(left: seq<string>, right: seq<string>)
    requires left != [] && Groups(left) && Groups(right)
    ensures Denotes(Join(left, ':') + "::" + Join(right, ':')) ==
            if |left| + |right| <= 7 then Some(Values(left) + ZeroGroups(8 - |left| - |right|) + Values(right))
            else None
  {
    FieldsAround(left, right);
  }

  // ---- agreement with the daemon --------------------------------------------

  function Hi(v: nat): Octet
    requires v < 65536
  {
    (v / 256) as bv8
  }

  function Lo(v: nat): Octet {
    (v % 256) as bv8
  }

  predicate Words16(v: seq<nat>) {
    forall i :: 0 <= i < |v| ==> v[i] < 65536
  }

  /** Four groups as eight octets. */
  function Octets(v: seq<nat>): seq<Octet>
    requires |v| == 4 && Words16(v)
  {
    [Hi(v[0]), Lo(v[0]), Hi(v[1]), Lo(v[1]), Hi(v[2]), Lo(v[2]), Hi(v[3]), Lo(v[3])]
  }

  /** Eight groups as an address. */
  function ToIn6(v: seq<nat>): In6
    requires |v| == 8 && Words16(v)
  {
    Octets(v[..4]) + Octets(v[4..])
  }

  lemma {:induction false} HexBound(s: string)
    requires HexField(s) && |s| <= 4
    ensures HexNumber(s) < if |s| == 1 then 16 else if |s| == 2 then 256 else if |s| == 3 then 4096 else 65536
  {
    if |s| == 1 {
      assert s[..0] == "";
    } else {
      assert HexField(s[..|s| - 1]);
      HexBound(s[..|s| - 1]);
    }
  }

  lemma HexConcat(a: string, b: string)
    requires HexField(a) && HexField(b) && |b| == 2
    ensures HexField(a + b) && HexNumber(a + b) == 256 * HexNumber(a) + HexNumber(b)
  {
    var s := a + b;
    var t := s[..|s| - 1];
    assert t == a + [b[0]] && t[..|t| - 1] == a && b[..1] == [b[0]] && b[..1][..0] == "";
    assert HexNumber(s) == 16 * HexNumber(t) + HexValue(b[1]);
    assert HexNumber(t) == 16 * HexNumber(a) + HexValue(b[0]);
    assert HexNumber(b[..1]) == HexValue(b[0]);
  }

  lemma PairGroup(a: string, b: string)
    requires |a| == 2 && |b| == 2 && HexField(a) && HexField(b)
    ensures Group(a + b) && GroupValue(a + b) == 256 * HexNumber(a) + HexNumber(b)
  {
    HexConcat(a, b);
  }

  lemma FlippedField(f: string)
    requires |f| == 2 && HexField(f)
    ensures var b1 := HexText(XorTwo(HexNumber(f)), 2, false);
            |b1| == 2 && HexField(b1) && HexNumber(b1) == XorTwo(HexNumber(f))
  {
    HexBound(f);
    HexTextValue(XorTwo(HexNumber(f)), false);
  }

  lemma FixedFields()
    ensures HexField("ff") && HexNumber("ff") == 255 && HexField("fe") && HexNumber("fe") == 254
  {
  }

  /** The numbers the hook's four groups spell. */
  lemma HookGroupValues(o: seq<string>)
    requires MacFields(o)
    ensures Groups(HookGroups(o))
    ensures Values(HookGroups(o)) ==
            [256 * XorTwo(HexNumber(o[0])) + HexNumber(o[1]), 256 * HexNumber(o[2]) + 255,
             256 * 254 + HexNumber(o[3]), 256 * HexNumber(o[4]) + HexNumber(o[5])]
  {
    FlippedField(o[0]);
    FixedFields();
    PairGroup(HexText(XorTwo(HexNumber(o[0])), 2, false), o[1]);
    PairGroup(o[2], "ff");
    PairGroup("fe", o[3]);
    PairGroup(o[4], o[5]);
  }

  /** The MAC whose octets the fields write. */
  ghost predicate Writes(o: seq<string>, mb: seq<Octet>) {
    MacFields(o) && |mb| == 6 && forall i :: 0 <= i < 6 ==> HexNumber(o[i]) == mb[i] as nat
  }

  lemma HiLo(a: Octet, b: Octet, v: nat)
    requires v == 256 * (a as nat) + (b as nat)
    ensures v < 65536 && Hi(v) == a && Lo(v) == b
  {
    assert v / 256 == a as nat && v % 256 == b as nat;
  }

  lemma EuiOctets(mb: seq<Octet>, v: seq<nat>)
    requires |mb| == 6 && |v| == 4
    requires v[0] == 256 * XorTwo(mb[0] as nat) + mb[1] as nat && v[1] == 256 * (mb[2] as nat) + 255
    requires v[2] == 256 * 254 + mb[3] as nat && v[3] == 256 * (mb[4] as nat) + mb[5] as nat
    ensures Words16(v) && Octets(v) == InterfaceId(mb)
  {
    XorTwoIsXor(mb[0]);
    HiLo(mb[0] ^ 0x02, mb[1], v[0]);
    HiLo(mb[2], 0xff, v[1]);
    HiLo(0xfe, mb[3], v[2]);
    HiLo(mb[4], mb[5], v[3]);
  }

  /** The hook's four groups are the modified EUI-64 of the MAC. */
  lemma HookGroupOctets(o: seq<string>, mb: seq<Octet>)
    requires Writes(o, mb)
    ensures Groups(HookGroups(o))
    ensures Words16(Values(HookGroups(o))) && Octets(Values(HookGroups(o))) == InterfaceId(mb)
  {
    HookGroupValues(o);
    EuiOctets(mb, Values(HookGroups(o)));
  }

  lemma GroupsAreWords(fields: seq<string>)
    requires Groups(fields)
    ensures Words16(Values(fields))
  {
    forall i | 0 <= i < |fields|
      ensures GroupValue(fields[i]) < 65536
    {
      assert Group(fields[i]);
      HexBound(fields[i]);
    }
  }

  lemma ZeroOctets()
    ensures Octets(ZeroGroups(4)) == [0, 0, 0, 0, 0, 0, 0, 0]
  {
  }

  /** The groups of a prefix written with trailing "::", and of the hook's text after it. */
  lemma SharedPrefix(p: seq<nat>, iid: seq<nat>)
    requires |p| <= 4 && |iid| == 4 && Words16(p) && Words16(iid)
    ensures var net, full := p + ZeroGroups(8 - |p|), p + ZeroGroups(4 - |p|) + iid;
            && Words16(net) && Words16(full) && |net| == |full| == 8
            && IsNetwork64(ToIn6(net)) && ToIn6(full) == ToIn6(net)[..8] + Octets(iid)
  {
    var net, full := p + ZeroGroups(8 - |p|), p + ZeroGroups(4 - |p|) + iid;
    assert net[..4] == full[..4] && net[4..] == ZeroGroups(4) && full[4..] == iid;
    ZeroOctets();
  }

  lemma AddressAgrees(p: seq<nat>, iid: seq<nat>, mb: seq<Octet>)
    requires |p| <= 4 && |iid| == 4 && Words16(p) && Words16(iid) && |mb| == 6 && Octets(iid) == InterfaceId(mb)
    ensures var net, full := p + ZeroGroups(8 - |p|), p + ZeroGroups(4 - |p|) + iid;
            && |net| == |full| == 8 && Words16(net) && Words16(full)
            && IsNetwork64(ToIn6(net)) && ToIn6(full) == Combine(ToIn6(net), mb)
  {
    SharedPrefix(p, iid);
    OrIsConcatenation(ToIn6(p + ZeroGroups(8 - |p|)), mb);
  }

  lemma CompressedPrefix(groups: seq<string>)
    requires |groups| <= 4 && Groups(groups)
    ensures Compressed(groups, []) == Some(Values(groups) + ZeroGroups(8 - |groups|))
  {
    var p := Values(groups) + ZeroGroups(8 - |groups|);
    assert Values([]) == [] && p + [] == p;
  }

  lemma PrefixDenotes(groups: seq<string>)
    requires 1 <= |groups| <= 4 && Groups(groups)
    ensures Denotes(Join(groups, ':') + "::") == Some(Values(groups) + ZeroGroups(8 - |groups|))
  {
    FieldsAround(groups, []);
    CompressedPrefix(groups);
    var pfx := Join(groups, ':') + "::";
    assert Join([], ':') == "" && pfx + "" == pfx;
  }

  lemma {:induction false} FieldsParse(fields: seq<string>, bs: seq<Octet>)
    requires |fields| == |bs|
    requires forall i :: 0 <= i < |fields| ==> HexField(fields[i]) && HexNumber(fields[i]) == bs[i] as nat
    ensures OctetsFromHex(fields) == Some(bs)
  {
    if fields != [] {
      FieldsParse(fields[1..], bs[1..]);
      assert OctetFromHex(fields[0]) == Some(bs[0]);
      assert bs == [bs[0]] + bs[1..];
    }
  }

  /** The daemon reads the same MAC from the same text. */
  lemma MacParses(o: seq<string>, mb: seq<Octet>)
    requires Writes(o, mb)
    ensures ParseMac(Join(o, ':')) == Some(mb)
  {
    forall i | 0 <= i < 6
      ensures ':' !in o[i]
    {
      NoColon(o[i]);
    }
    SplitOfJoin(o, ':');
    FieldsParse(o, mb);
  }

  /** The groups that a text denotes, as an address. */
  ghost predicate DenotesAddress(s: string, a: In6) {
    var d := Denotes(s);
    d.Some? && |d.value| == 8 && Words16(d.value) && ToIn6(d.value) == a
  }

  /**
   * For a /64 written with up to four groups before its trailing "::", the hook's text denotes the
   * very address the daemon derives when there are at most three groups, and no address at all
   * when there are four, because then "::" would have to stand for zero groups.
   */
  lemma HookAgreesIff(groups: seq<string>, o: seq<string>, mb: seq<Octet>) returns (net: In6)
    requires 1 <= |groups| <= 4 && Groups(groups) && Writes(o, mb)
    ensures var pfx := Join(groups, ':') + "::";
            var text := pfx + Join(HookGroups(o), ':');
            && DenotesAddress(pfx, net) && IsNetwork64(net)
            && DeriveGua(net, Join(o, ':')) == Some(Combine(net, mb))
            && (|groups| <= 3 ==> DenotesAddress(text, Combine(net, mb)))
            && (|groups| == 4 ==> Denotes(text) == None)
  {
    var p, right := Values(groups), HookGroups(o);
    HookGroupOctets(o, mb);
    GroupsAreWords(groups);
    AddressAgrees(p, Values(right), mb);
    PrefixDenotes(groups);
    JoinedDenotes(groups, right);
    MacParses(o, mb);
    net := ToIn6(p + ZeroGroups(8 - |p|));
  }
}
