/** What the return-route daemon reads from the kernel, and its three-tier choice of a next hop. */
module NextHop {
  import opened Prelude
  import opened Inet
  import opened Text
  import opened Eui64

  datatype Link = Link(name: string, index: nat)

  /** An IPv6 route as dumped: prefix length, RTA_OIF and RTA_DST. */
  datatype Route6 = Route6(dstLen: nat, oif: Option<nat>, dst: Option<In6>)

  /** An IPv6 neighbour as dumped: interface, NDA_DST, NDA_LLADDR and NUD state. */
  datatype Neighbour = Neighbour(ifindex: nat, dst: Option<In6>, lladdr: Option<string>, state: nat)

  /** One reading of the kernel; `neighboursReadable` is false when the ND dump raises. */
  datatype Net = Net(links: seq<Link>, routes6: seq<Route6>, neighboursReadable: bool, neighbours: seq<Neighbour>)

  /** REACHABLE, STALE, DELAY or PROBE. */
  predicate UsableState(state: nat) {
    state == 0x02 || state == 0x04 || state == 0x08 || state == 0x10
  }

  // ---- inspection -----------------------------------------------------------

  function IndexIn(links: seq<Link>, ifname: string): Option<nat> {
    if links == [] then None
    else if links[0].name == ifname then Some(links[0].index)
    else IndexIn(links[1..], ifname)
  }

  function Index(net: Net, ifname: string): Option<nat> {
    IndexIn(net.links, ifname)
  }

  predicate Advertises(r: Route6, idx: nat) {
    r.dstLen == 64 && r.oif == Some(idx) && r.dst.Some? && GlobalOrUla(r.dst.value)
  }

  function PrefixIn(routes: seq<Route6>, idx: nat): (r: Option<In6>)
    ensures r.Some? ==> IsNetwork64(r.value)
  {
    if routes == [] then None
    else if Advertises(routes[0], idx) then Some(Network64(routes[0].dst.value))
    else PrefixIn(routes[1..], idx)
  }

  /** The interface's on-link global or unique-local /64: the first one in dump order. */
  function Prefix(net: Net, idx: nat): (r: Option<In6>)
    ensures r.Some? ==> IsNetwork64(r.value)
  {
    PrefixIn(net.routes6, idx)
  }

  predicate BelongsTo(n: Neighbour, idx: nat, mac: string) {
    n.ifindex == idx && n.dst.Some? && n.lladdr.Some? && n.lladdr.value != "" && Lower(n.lladdr.value) == mac
  }

  /** The addresses the first `k` neighbour rows attribute to `mac`. */
  function CacheUpTo(rows: seq<Neighbour>, k: nat, idx: nat, mac: string): Dict<In6, nat>
    requires k <= |rows|
  {
    if k == 0 then EmptyDict()
    else
      var d := CacheUpTo(rows, k - 1, idx, mac);
      var n := rows[k - 1];
      if BelongsTo(n, idx, mac) then Put(d, n.dst.value, n.state) else d
  }

  /** The host's addresses in the ND cache with their states; nothing when the dump fails. */
  function Cache(net: Net, idx: nat, mac: string): Dict<In6, nat> {
    if net.neighboursReadable then CacheUpTo(net.neighbours, |net.neighbours|, idx, mac) else EmptyDict()
  }

  lemma {:induction false} FirstLinkWins(links: seq<Link>, ifname: string)
    ensures match IndexIn(links, ifname)
            case Some(n) => exists i :: 0 <= i < |links| && links[i] == Link(ifname, n) &&
                                        forall j :: 0 <= j < i ==> links[j].name != ifname
            case None => forall i :: 0 <= i < |links| ==> links[i].name != ifname
  {
    if links != [] && links[0].name != ifname {
      FirstLinkWins(links[1..], ifname);
      assert forall i :: 0 <= i < |links| - 1 ==> links[1..][i] == links[i + 1];
      if IndexIn(links, ifname).Some? {
        var i :| 0 <= i < |links| - 1 && links[1..][i] == Link(ifname, IndexIn(links, ifname).value) &&
                 forall j :: 0 <= j < i ==> links[1..][j].name != ifname;
        assert forall j :: 0 < j < i + 1 ==> links[j] == links[1..][j - 1];
        assert links[i + 1] == Link(ifname, IndexIn(links, ifname).value);
      }
    }
  }

  /** An on-link /64 of the interface in 2000::/3 or fc00::/7. */
  ghost predicate OnLink64(r: Route6, idx: nat) {
    && r.dstLen == 64 && r.oif == Some(idx) && r.dst.Some?
    && (r.dst.value[0] & 0xe0 == 0x20 || r.dst.value[0] & 0xfe == 0xfc)
  }

  /** The prefix is the first eight octets of the first such route, and there is none iff no route is one. */
  lemma {:induction false} FirstPrefixWins(routes: seq<Route6>, idx: nat)
    ensures match PrefixIn(routes, idx)
            case Some(p) => exists i :: 0 <= i < |routes| && OnLink64(routes[i], idx) &&
                                        p[..8] == routes[i].dst.value[..8] && IsNetwork64(p) &&
                                        forall j :: 0 <= j < i ==> !OnLink64(routes[j], idx)
            case None => forall i :: 0 <= i < |routes| ==> !OnLink64(routes[i], idx)
  {
    if routes != [] {
      if routes[0].dst.Some? {
        GlobalOrUlaIsPrefixes(routes[0].dst.value);
      }
      if OnLink64(routes[0], idx) {
        assert Network64(routes[0].dst.value)[..8] == routes[0].dst.value[..8];
      } else {
        FirstPrefixWins(routes[1..], idx);
        assert forall i :: 0 <= i < |routes| - 1 ==> routes[1..][i] == routes[i + 1];
        if PrefixIn(routes, idx).Some? {
          var p := PrefixIn(routes, idx).value;
          var i :| 0 <= i < |routes| - 1 && OnLink64(routes[1..][i], idx) && p[..8] == routes[1..][i].dst.value[..8] &&
                   forall j :: 0 <= j < i ==> !OnLink64(routes[1..][j], idx);
          assert forall j :: 0 < j < i + 1 ==> routes[j] == routes[1..][j - 1];
          assert OnLink64(routes[i + 1], idx);
        }
      }
    }
  }

  // ---- the ND cache ---------------------------------------------------------

  /** Row `i` gives address `a` to the host: same interface, a link-layer address equal to the MAC but for case. */
  ghost predicate RowFor(rows: seq<Neighbour>, i: int, idx: nat, mac: string, a: In6) {
    && 0 <= i < |rows| && rows[i].ifindex == idx && rows[i].dst == Some(a)
    && rows[i].lladdr.Some? && rows[i].lladdr.value != "" && Lower(rows[i].lladdr.value) == mac
  }

  ghost predicate LastRowFor(rows: seq<Neighbour>, k: nat, i: int, idx: nat, mac: string, a: In6) {
    i < k && RowFor(rows, i, idx, mac, a) && forall j :: i < j < k ==> !RowFor(rows, j, idx, mac, a)
  }

  /** An address is cached with the state of its last row, and only with a row. */
  lemma {:induction false} CachedStateIsLast(rows: seq<Neighbour>, k: nat, idx: nat, mac: string, a: In6)
    requires k <= |rows|
    ensures var d := CacheUpTo(rows, k, idx, mac);
            if a in d.vals then exists i :: LastRowFor(rows, k, i, idx, mac, a) && rows[i].state == d.vals[a]
            else forall i :: 0 <= i < k ==> !RowFor(rows, i, idx, mac, a)
  {
    if k > 0 {
      CachedStateIsLast(rows, k - 1, idx, mac, a);
      if RowFor(rows, k - 1, idx, mac, a) {
        assert LastRowFor(rows, k, k - 1, idx, mac, a);
      } else if a in CacheUpTo(rows, k, idx, mac).vals {
        var i :| LastRowFor(rows, k - 1, i, idx, mac, a) && rows[i].state == CacheUpTo(rows, k - 1, idx, mac).vals[a];
        assert LastRowFor(rows, k, i, idx, mac, a);
      }
    }
  }

  /** `a` has a row before `b` has any. */
  ghost predicate SeenBefore(rows: seq<Neighbour>, k: nat, idx: nat, mac: string, a: In6, b: In6) {
    exists i :: i < k && RowFor(rows, i, idx, mac, a) && forall j :: 0 <= j <= i ==> !RowFor(rows, j, idx, mac, b)
  }

  /** Cached addresses stand in the order of their first rows. */
  lemma {:induction false} CachedInOrderOfFirstRows(rows: seq<Neighbour>, k: nat, idx: nat, mac: string, p: nat, q: nat)
    requires k <= |rows| && p < q < |CacheUpTo(rows, k, idx, mac).keys|
    ensures var keys := CacheUpTo(rows, k, idx, mac).keys; SeenBefore(rows, k, idx, mac, keys[p], keys[q])
  {
    var keys, earlier := CacheUpTo(rows, k, idx, mac).keys, CacheUpTo(rows, k - 1, idx, mac).keys;
    if q < |earlier| {
      CachedInOrderOfFirstRows(rows, k - 1, idx, mac, p, q);
      var i :| i < k - 1 && RowFor(rows, i, idx, mac, keys[p]) &&
               forall j :: 0 <= j <= i ==> !RowFor(rows, j, idx, mac, keys[q]);
      assert i < k;
    } else {
      assert keys[p] == earlier[p] && keys[p] in earlier;
      CachedStateIsLast(rows, k - 1, idx, mac, keys[p]);
      CachedStateIsLast(rows, k - 1, idx, mac, keys[q]);
      var i :| LastRowFor(rows, k - 1, i, idx, mac, keys[p]);
      assert forall j :: 0 <= j <= i ==> !RowFor(rows, j, idx, mac, keys[q]);
    }
  }

  lemma CacheComesFromRows(rows: seq<Neighbour>, k: nat, idx: nat, mac: string, a: In6)
    requires k <= |rows|
    requires a in CacheUpTo(rows, k, idx, mac).vals
    ensures exists i :: 0 <= i < k && BelongsTo(rows[i], idx, mac) && rows[i].dst == Some(a)
  {
  }

  // ---- choice ---------------------------------------------------------------

  /** The derived address of `mac` on interface `idx`, when a prefix is advertised and the MAC parses. */
  function DerivedGua(net: Net, idx: nat, mac: string): Option<In6> {
    var prefix := Prefix(net, idx);
    if prefix.None? then None else DeriveGua(prefix.value, mac)
  }

  /** It is the prefix followed by the modified EUI-64 of the MAC: universal bit flipped, ff:fe in the middle. */
  lemma DerivedGuaOctets(net: Net, idx: nat, mac: string)
    ensures var p, mb := Prefix(net, idx), ParseMac(mac);
            DerivedGua(net, idx, mac) ==
            if p.Some? && mb.Some?
            then Some(p.value[..8] + [mb.value[0] ^ 0x02, mb.value[1], mb.value[2], 0xff, 0xfe,
                                      mb.value[3], mb.value[4], mb.value[5]])
            else None
  {
    var p, mb := Prefix(net, idx), ParseMac(mac);
    if p.Some? && mb.Some? {
      OrIsConcatenation(p.value, mb.value);
    }
  }

  predicate Usable(cache: Dict<In6, nat>, a: In6) {
    a in cache.vals && UsableState(cache.vals[a])
  }

  datatype AddressClass = Global | Fe80

  predicate InClass(c: AddressClass, a: In6) {
    match c
    case Global => GlobalOrUla(a)
    case Fe80 => StartsFe80(a)
  }

  /** The first usable address of class `c` in the order of `keys`. */
  function FirstUsable(cache: Dict<In6, nat>, keys: seq<In6>, c: AddressClass): Option<In6> {
    if keys == [] then None
    else if Usable(cache, keys[0]) && InClass(c, keys[0]) then Some(keys[0])
    else FirstUsable(cache, keys[1..], c)
  }

  /** The derived GUA when usable, else the first usable global or ULA, else the first usable fe80. */
  function Choose(cache: Dict<In6, nat>, gua: Option<In6>): Option<In6> {
    if gua.Some? && Usable(cache, gua.value) then gua
    else
      var global := FirstUsable(cache, cache.keys, Global);
      if global.Some? then global else FirstUsable(cache, cache.keys, Fe80)
  }

  /** The best next hop; the caller pairs it with `DerivedGua`. */
  function BestNexthop(net: Net, idx: nat, mac: string): Option<In6> {
    Choose(Cache(net, idx, mac), DerivedGua(net, idx, mac))
  }

  // ---- what the choice means ------------------------------------------------

  /** Preference tier of an address: derived GUA, other global or ULA, fe80, unsuitable. */
  function Tier(gua: Option<In6>, a: In6): nat {
    if gua == Some(a) then 0 else if GlobalOrUla(a) then 1 else if StartsFe80(a) then 2 else 3
  }

  /** `keys[i]` is the earliest usable entry of the best tier that has one. */
  ghost predicate FirstOfBestTier(cache: Dict<In6, nat>, gua: Option<In6>, i: nat) {
    && i < |cache.keys|
    && Usable(cache, cache.keys[i])
    && Tier(gua, cache.keys[i]) < 3
    && (forall j :: 0 <= j < |cache.keys| && Usable(cache, cache.keys[j]) ==>
          Tier(gua, cache.keys[i]) < Tier(gua, cache.keys[j])
          || (Tier(gua, cache.keys[i]) == Tier(gua, cache.keys[j]) && i <= j))
  }

  ghost predicate FirstAt(cache: Dict<In6, nat>, keys: seq<In6>, c: AddressClass, i: nat) {
    && i < |keys|
    && Usable(cache, keys[i])
    && InClass(c, keys[i])
    && forall j :: 0 <= j < i ==> !(Usable(cache, keys[j]) && InClass(c, keys[j]))
  }

  lemma {:induction false} FirstUsableIs(cache: Dict<In6, nat>, keys: seq<In6>, c: AddressClass)
    ensures match FirstUsable(cache, keys, c)
            case Some(a) => exists i: nat :: FirstAt(cache, keys, c, i) && keys[i] == a
            case None => forall j :: 0 <= j < |keys| ==> !(Usable(cache, keys[j]) && InClass(c, keys[j]))
  {
    if keys != [] {
      if Usable(cache, keys[0]) && InClass(c, keys[0]) {
        assert FirstAt(cache, keys, c, 0);
      } else {
        var rest := keys[1..];
        FirstUsableIs(cache, rest, c);
        assert forall j :: 0 < j < |keys| ==> keys[j] == rest[j - 1];
        if FirstUsable(cache, rest, c).Some? {
          var i: nat :| FirstAt(cache, rest, c, i) && rest[i] == FirstUsable(cache, rest, c).value;
          assert FirstAt(cache, keys, c, i + 1);
        }
      }
    }
  }

  lemma DerivedIsBest(cache: Dict<In6, nat>, gua: In6) returns (i: nat)
    requires Usable(cache, gua)
    ensures FirstOfBestTier(cache, Some(gua), i) && cache.keys[i] == gua
  {
    i :| i < |cache.keys| && cache.keys[i] == gua;
  }

  lemma GlobalIsBest(cache: Dict<In6, nat>, gua: Option<In6>, i: nat)
    requires gua.Some? ==> !Usable(cache, gua.value)
    requires FirstAt(cache, cache.keys, Global, i)
    ensures FirstOfBestTier(cache, gua, i)
  {
  }

  lemma Fe80IsBest(cache: Dict<In6, nat>, gua: Option<In6>, i: nat)
    requires gua.Some? ==> !Usable(cache, gua.value)
    requires forall j :: 0 <= j < |cache.keys| ==> !(Usable(cache, cache.keys[j]) && GlobalOrUla(cache.keys[j]))
    requires FirstAt(cache, cache.keys, Fe80, i)
    ensures FirstOfBestTier(cache, gua, i)
  {
  }

  /** The three searches land on the first entry of the best tier, or find no suitable entry. */
  lemma ChoiceIsFirstOfBestTier(cache: Dict<In6, nat>, gua: Option<In6>)
    ensures match Choose(cache, gua)
            case Some(a) => exists i: nat :: FirstOfBestTier(cache, gua, i) && cache.keys[i] == a
            case None => forall j :: 0 <= j < |cache.keys| && Usable(cache, cache.keys[j]) ==>
                           Tier(gua, cache.keys[j]) == 3
  {
    var keys := cache.keys;
    if gua.Some? && Usable(cache, gua.value) {
      var i := DerivedIsBest(cache, gua.value);
    } else {
      FirstUsableIs(cache, keys, Global);
      FirstUsableIs(cache, keys, Fe80);
      if FirstUsable(cache, keys, Global).Some? {
        var i: nat :| FirstAt(cache, keys, Global, i) && keys[i] == FirstUsable(cache, keys, Global).value;
        GlobalIsBest(cache, gua, i);
      } else if FirstUsable(cache, keys, Fe80).Some? {
        var i: nat :| FirstAt(cache, keys, Fe80, i) && keys[i] == FirstUsable(cache, keys, Fe80).value;
        Fe80IsBest(cache, gua, i);
      }
    }
  }

  /** The tier description singles out one entry, so it is equivalent to the search. */
  lemma ChooseIff(cache: Dict<In6, nat>, gua: Option<In6>, i: nat)
    requires i < |cache.keys|
    ensures Choose(cache, gua) == Some(cache.keys[i]) <==> FirstOfBestTier(cache, gua, i)
  {
    ChoiceIsFirstOfBestTier(cache, gua);
    if Choose(cache, gua).Some? {
      var k: nat :| FirstOfBestTier(cache, gua, k) && cache.keys[k] == Choose(cache, gua).value;
      assert FirstOfBestTier(cache, gua, i) ==> i == k;
      assert cache.keys[k] == cache.keys[i] ==> i == k;
    }
  }

  // ---- the choice, in terms of what the kernel reported ---------------------

  /** The address is usable: its last row is REACHABLE (0x02), STALE (0x04), DELAY (0x08) or PROBE (0x10). */
  ghost predicate Reported(net: Net, idx: nat, mac: string, a: In6) {
    && net.neighboursReadable
    && exists i :: LastRowFor(net.neighbours, |net.neighbours|, i, idx, mac, a) &&
                   net.neighbours[i].state in {0x02, 0x04, 0x08, 0x10}
  }

  lemma ReportedIffUsable(net: Net, idx: nat, mac: string, a: In6)
    ensures Reported(net, idx, mac, a) <==> Usable(Cache(net, idx, mac), a)
  {
    if net.neighboursReadable {
      var rows := net.neighbours;
      CachedStateIsLast(rows, |rows|, idx, mac, a);
      assert forall i, j :: LastRowFor(rows, |rows|, i, idx, mac, a) && LastRowFor(rows, |rows|, j, idx, mac, a) ==>
               i == j;
    }
  }

  /**
   * The best hop is a usable address; the derived GUA if that is usable, else a global or unique-local
   * one if any is, else one in fe80::/16. There is none iff no usable address is of these kinds.
   */
  lemma BestHopFromRows(net: Net, idx: nat, mac: string)
    ensures match BestNexthop(net, idx, mac)
            case Some(a) =>
              && Reported(net, idx, mac, a)
              && (forall g :: DerivedGua(net, idx, mac) == Some(g) && Reported(net, idx, mac, g) ==> a == g)
              && (DerivedGua(net, idx, mac) == Some(a) || a[0] & 0xe0 == 0x20 || a[0] & 0xfe == 0xfc ||
                  (a[0] == 0xfe && a[1] == 0x80 &&
                   forall b :: Reported(net, idx, mac, b) ==> b[0] & 0xe0 != 0x20 && b[0] & 0xfe != 0xfc))
            case None =>
              forall b :: Reported(net, idx, mac, b) ==>
                DerivedGua(net, idx, mac) != Some(b) && b[0] & 0xe0 != 0x20 && b[0] & 0xfe != 0xfc &&
                !(b[0] == 0xfe && b[1] == 0x80)
  {
    var cache, gua := Cache(net, idx, mac), DerivedGua(net, idx, mac);
    ChoiceIsFirstOfBestTier(cache, gua);
    forall b | Reported(net, idx, mac, b)
      ensures exists j :: 0 <= j < |cache.keys| && cache.keys[j] == b && Usable(cache, b)
    {
      ReportedIffUsable(net, idx, mac, b);
    }
    forall b: In6
      ensures GlobalOrUla(b) <==> b[0] & 0xe0 == 0x20 || b[0] & 0xfe == 0xfc
    {
      GlobalOrUlaIsPrefixes(b);
    }
    if BestNexthop(net, idx, mac).Some? {
      var a := BestNexthop(net, idx, mac).value;
      ReportedIffUsable(net, idx, mac, a);
      var i: nat :| FirstOfBestTier(cache, gua, i) && cache.keys[i] == a;
    }
  }
}
