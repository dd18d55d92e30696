/** The three daemons that pin a permanent neighbour, each in its own form, refining one specification. */
module PinDaemons {
  import opened Prelude
  import opened Inet
  import opened RouteSocket
  import opened RouterCache
  import opened StaticNeighbor
  import LinuxNative
  import Selection

  // ---- reading the kernel ---------------------------------------------------

  /** macOS and Windows: the first row for the sentinel decides; an unreadable table counts as absent. */
  method FirstEntryIs(rows: Option<seq<Row>>, ghost table: Table, key: Key, mac: Mac) returns (found: bool)
    requires rows.Some? ==> Dumps(rows.value, table)
    ensures found <==> rows.Some? && Pinned(table, key, mac)
  {
    if rows.None? {
      return false;
    }
    for i := 0 to |rows.value|
      invariant forall j :: 0 <= j < i ==> rows.value[j].key != key
    {
      var r := rows.value[i];
      if r.key == key {
        return |r.entry.lladdr| == 6 && r.entry.lladdr == mac && r.entry.permanent;
      }
    }
    return false;
  }

  /** Linux: any permanent row with the MAC will do. */
  method SomeEntryIs(rows: Option<seq<Row>>, ghost table: Table, key: Key, mac: Mac) returns (found: bool)
    requires rows.Some? ==> Dumps(rows.value, table)
    ensures found <==> rows.Some? && Pinned(table, key, mac)
  {
    if rows.None? {
      return false;
    }
    for i := 0 to |rows.value|
      invariant forall j :: 0 <= j < i ==> rows.value[j].key == key ==>
                  !(rows.value[j].entry.permanent && rows.value[j].entry.lladdr == mac)
    {
      var r := rows.value[i];
      if r.key == key && r.entry.permanent && r.entry.lladdr == mac {
        return true;
      }
    }
    return false;
  }

  /** An IPv6 route: up and through a gateway, interface, destination and its length, next hop and metric. */
  datatype Route6 = Route6(usable: bool, ifindex: nat, dst: Option<In6>, prefixLen: nat, gw: Option<In6>, metric: nat)

  /** An ND cache row; the link-layer address is empty until it is resolved. */
  datatype NdRow = NdRow(ifindex: nat, dst: Option<In6>, lladdr: seq<Octet>)

  const UNSPECIFIED: In6 := [0,0,0,0,0,0,0,0,0,0,0,0,0,0,0,0]

  datatype Platform = Macos | Windows

  /** macOS asks for an up gateway route to the unspecified address, Windows for a zero prefix length. */
  predicate DefaultVia(os: Platform, r: Route6, ifindex: nat) {
    && r.ifindex == ifindex && r.dst.Some? && r.gw.Some?
    && match os
       case Macos => r.usable && r.dst == Some(UNSPECIFIED)
       case Windows => r.prefixLen == 0
  }

  /** Darwin keeps the scope inside link-local addresses; Windows does not. */
  function Plain(os: Platform, a: In6): In6 {
    match os
    case Macos => StripScope(a)
    case Windows => a
  }

  predicate Resolves(os: Platform, n: NdRow, ifindex: nat, gw: In6) {
    n.ifindex == ifindex && n.dst.Some? && Plain(os, n.dst.value) == gw && |n.lladdr| == 6
  }

  /** The two tests field by field; on usable routes whose length is zero exactly for ::, they are the same. */
  lemma DefaultViaFields(r: Route6, ifindex: nat)
    ensures DefaultVia(Macos, r, ifindex) <==>
              r.ifindex == ifindex && r.gw.Some? && r.usable && r.dst == Some([0,0,0,0,0,0,0,0,0,0,0,0,0,0,0,0])
    ensures DefaultVia(Windows, r, ifindex) <==> r.ifindex == ifindex && r.gw.Some? && r.dst.Some? && r.prefixLen == 0
    ensures r.usable && (r.prefixLen == 0 <==> r.dst == Some(UNSPECIFIED)) ==>
              (DefaultVia(Macos, r, ifindex) <==> DefaultVia(Windows, r, ifindex))
  {
  }

  /** A row resolves the gateway when it is the interface's, has six octets and the gateway's address, scope aside. */
  lemma ResolvesFields(os: Platform, n: NdRow, ifindex: nat, gw: In6)
    ensures Resolves(os, n, ifindex, gw) <==>
              n.ifindex == ifindex && n.dst.Some? && |n.lladdr| == 6 &&
              if os.Macos? && LinkLocal(n.dst.value)
              then gw[2] == 0 && gw[3] == 0 && gw[..2] == n.dst.value[..2] && gw[4..] == n.dst.value[4..]
              else n.dst.value == gw
  {
    if n.dst.Some? {
      var a := n.dst.value;
      assert a[2 := 0][3 := 0] == a[..2] + [0, 0] + a[4..];
      assert gw == gw[..2] + [gw[2], gw[3]] + gw[4..];
    }
  }

  /** macOS `find_default_router`: the first default route on the interface, scope octets cleared. */
  method MacDefaultRouter(routes: seq<Route6>, ifindex: nat) returns (gw: Option<In6>)
    ensures gw.None? <==> forall i :: 0 <= i < |routes| ==> !DefaultVia(Macos, routes[i], ifindex)
    ensures gw.Some? ==> exists i :: 0 <= i < |routes| && DefaultVia(Macos, routes[i], ifindex) &&
                                     gw.value == StripScope(routes[i].gw.value) &&
                                     forall j :: 0 <= j < i ==> !DefaultVia(Macos, routes[j], ifindex)
  {
    for i := 0 to |routes|
      invariant forall j :: 0 <= j < i ==> !DefaultVia(Macos, routes[j], ifindex)
    {
      if DefaultVia(Macos, routes[i], ifindex) {
        return Some(StripScope(routes[i].gw.value));
      }
    }
    return None;
  }

  /** Windows `find_default_router`: the first of the lowest-metric default routes on the interface. */
  method WindowsDefaultRouter(routes: seq<Route6>, ifindex: nat) returns (gw: Option<In6>)
    ensures gw.None? <==> forall i :: 0 <= i < |routes| ==> !DefaultVia(Windows, routes[i], ifindex)
    ensures gw.Some? ==>
              exists i :: 0 <= i < |routes| && DefaultVia(Windows, routes[i], ifindex) && gw == routes[i].gw &&
                          forall j :: 0 <= j < |routes| && DefaultVia(Windows, routes[j], ifindex) ==>
                            routes[i].metric < routes[j].metric || (routes[i].metric == routes[j].metric && i <= j)
  {
    gw := None;
    var best := 0;
    ghost var at := 0;
    for i := 0 to |routes|
      invariant gw.None? <==> forall j :: 0 <= j < i ==> !DefaultVia(Windows, routes[j], ifindex)
      invariant gw.Some? ==>
                  && 0 <= at < i && DefaultVia(Windows, routes[at], ifindex)
                  && gw == routes[at].gw && best == routes[at].metric
                  && forall j :: 0 <= j < i && DefaultVia(Windows, routes[j], ifindex) ==>
                       routes[at].metric < routes[j].metric || (routes[at].metric == routes[j].metric && at <= j)
    {
      var r := routes[i];
      if DefaultVia(Windows, r, ifindex) && (gw.None? || r.metric < best) {
        gw, best, at := r.gw, r.metric, i;
      }
    }
  }

  /** `router_lladdr`: the first resolved ND row for the gateway. */
  method ReadRouterMac(os: Platform, rows: seq<NdRow>, ifindex: nat, gw: In6) returns (mac: Option<Mac>)
    ensures mac.None? <==> forall i :: 0 <= i < |rows| ==> !Resolves(os, rows[i], ifindex, gw)
    ensures mac.Some? ==> exists i :: 0 <= i < |rows| && Resolves(os, rows[i], ifindex, gw) &&
                                      rows[i].lladdr == mac.value &&
                                      forall j :: 0 <= j < i ==> !Resolves(os, rows[j], ifindex, gw)
  {
    for i := 0 to |rows|
      invariant forall j :: 0 <= j < i ==> !Resolves(os, rows[j], ifindex, gw)
    {
      if Resolves(os, rows[i], ifindex, gw) {
        return Some(rows[i].lladdr);
      }
    }
    return None;
  }

  /** The router MAC comes from an ND row for the gateway of a default route on the interface. */
  ghost predicate FromNd(os: Platform, mac: Mac, ifindex: nat, routes: seq<Route6>, nd: seq<NdRow>) {
    exists i, j :: 0 <= i < |routes| && 0 <= j < |nd| && DefaultVia(os, routes[i], ifindex) &&
                   Resolves(os, nd[j], ifindex, Plain(os, routes[i].gw.value)) && nd[j].lladdr == mac
  }

  /** No default route on the interface, or one whose gateway the ND cache does not resolve. */
  ghost predicate NotInNd(os: Platform, ifindex: nat, routes: seq<Route6>, nd: seq<NdRow>) {
    || (forall i :: 0 <= i < |routes| ==> !DefaultVia(os, routes[i], ifindex))
    || exists i :: 0 <= i < |routes| && DefaultVia(os, routes[i], ifindex) &&
                   forall j :: 0 <= j < |nd| ==> !Resolves(os, nd[j], ifindex, Plain(os, routes[i].gw.value))
  }

  /** What a reconcile may find, given the system it looks at. */
  ghost predicate Observed(os: Platform, sight: Sight, present: bool, gateOpen: bool, own: Option<Mac>, ifindex: nat,
                           routes: seq<Route6>, nd: seq<NdRow>)
  {
    && (sight.Gone? <==> !present)
    && (sight.Shut? <==> present && !gateOpen)
    && (sight.Seen? ==> sight.own == own)
    && (sight.Seen? && sight.router.Some? ==> FromNd(os, sight.router.value, ifindex, routes, nd))
    && (sight.Seen? && sight.router.None? ==> NotInNd(os, ifindex, routes, nd))
  }

  method MacObserve(present: bool, gateOpen: bool, own: Option<Mac>, ifindex: nat, routes: seq<Route6>, nd: seq<NdRow>)
    returns (sight: Sight)
    ensures Observed(Macos, sight, present, gateOpen, own, ifindex, routes, nd)
  {
    if !present {
      return Gone;
    }
    if !gateOpen {
      return Shut;
    }
    var gw := MacDefaultRouter(routes, ifindex);
    if gw.None? {
      return Seen(own, None);
    }
    var mac := ReadRouterMac(Macos, nd, ifindex, gw.value);
    return Seen(own, mac);
  }

  method WindowsObserve(present: bool, gateOpen: bool, own: Option<Mac>, ifindex: nat, routes: seq<Route6>,
                        nd: seq<NdRow>)
    returns (sight: Sight)
    ensures Observed(Windows, sight, present, gateOpen, own, ifindex, routes, nd)
  {
    if !present {
      return Gone;
    }
    if !gateOpen {
      return Shut;
    }
    var gw := WindowsDefaultRouter(routes, ifindex);
    if gw.None? {
      return Seen(own, None);
    }
    var mac := ReadRouterMac(Windows, nd, ifindex, gw.value);
    return Seen(own, mac);
  }

  // ---- Linux without RTA_VIA ------------------------------------------------

  /** The router whose MAC is to be pinned: none while the gate is closed. */
  ghost function StaticRouter(cfg: LinuxNative.Config, table4: set<LinuxNative.Route4>, v6: LinuxNative.Ipv6)
    : Option<In6>
    requires v6.index.Some?
  {
    if LinuxNative.GateOpen(cfg, table4, v6.index.value) then Selection.LinuxChoice(v6.routes6, v6.nud) else None
  }

  class LinuxStatic {
    const key: Key
    var table: Table
    var installedMac: Option<Mac>
    /** Kernel writes issued so far. */
    ghost var writes: nat

    ghost function Now(): Pin
      reads this
    {
      Pin(table, installedMac)
    }

    constructor (key: Key, table: Table)
      ensures this.key == key && Now() == Pin(table, None)
    {
      this.key, this.table, this.installedMac, this.writes := key, table, None, 0;
    }

    /** `_pin_neighbor` with the router's MAC as read from the ND cache, or None while it is unresolved. */
    method PinNeighbor(mac: Option<Mac>, rows: Option<seq<Row>>, ok: bool)
      requires rows.Some? ==> Dumps(rows.value, table)
      modifies this
      ensures mac.None? || !ok ==> Now() == old(Now())
      ensures mac.Some? && ok ==> Now() == PinTo(old(Now()), key, mac.value)
      ensures mac.None? || (rows.Some? && InPlace(old(Now()), key, mac.value)) <==> writes == old(writes)
    {
      if mac.None? {
        return;
      }
      var present := SomeEntryIs(rows, table, key, mac.value);
      if installedMac == Some(mac.value) && present {
        return;
      }
      PinWithIsPinTo(Now(), key, mac.value, Io(rows.Some?, Done, true, true));
      writes := writes + 1;
      if ok {
        table := table[key := Entry(mac.value, true)];
        installedMac := mac;
      }
    }

    method Withdraw(ok: bool)
      modifies this
      ensures Now() == Unpin(old(Now()), key, ok)
      ensures writes == old(writes) <==> old(installedMac).None?
    {
      if installedMac.None? {
        return;
      }
      writes := writes + 1;
      if ok {
        table := table - {key};
      }
      installedMac := None;
    }

    /**
     * `reconcile` in static mode, given the IPv4 routes, the IPv6 default routes with their NUD
     * states, and the MAC of each neighbour; an unresolved router keeps the entry that is there.
     */
    method Reconcile(cfg: LinuxNative.Config, table4: set<LinuxNative.Route4>, v6: LinuxNative.Ipv6,
                     lladdr: In6 -> Option<Mac>, rows: Option<seq<Row>>, ok: bool)
      requires rows.Some? ==> Dumps(rows.value, table)
      modifies this
      ensures v6.index.None? ==> Now() == old(Now()).(installed := None) && writes == old(writes)
      ensures v6.index.Some? ==>
                var router := StaticRouter(cfg, table4, v6);
                if router.None? then
                  && Now() == Unpin(old(Now()), key, ok)
                  && (writes == old(writes) <==> old(installedMac).None?)
                else
                  var mac := lladdr(router.value);
                  && Now() == (if mac.Some? && ok then PinTo(old(Now()), key, mac.value) else old(Now()))
                  && (writes == old(writes) <==> mac.None? || (rows.Some? && InPlace(old(Now()), key, mac.value)))
    {
      if v6.index.None? {
        installedMac := None;
        return;
      }
      if cfg.requireSentinel {
        var present := LinuxNative.ReadSentinel(table4, v6.index.value);
        if !present {
          Withdraw(ok);
          return;
        }
      }
      var gw := Selection.LinuxSelect(v6.routes6, v6.nud);
      if gw.None? {
        Withdraw(ok);
      } else {
        PinNeighbor(lladdr(gw.value), rows, ok);
      }
    }
  }

  // ---- macOS ----------------------------------------------------------------

  class ArpDaemon {
    const key: Key
    var table: Table
    var arpInstalled: bool
    var installedMac: Mac
    /** The cache directory. */
    var files: map<string, string>
    ghost var cache: map<Mac, Mac>
    ghost var writes: nat

    ghost predicate Valid()
      reads this
    {
      FilesHold(files, cache)
    }

    ghost function Now(): Daemon
      reads this
    {
      Daemon(Pin(table, if arpInstalled then Some(installedMac) else None), cache)
    }

    constructor (key: Key, table: Table)
      ensures Valid() && this.key == key && Now() == Daemon(Pin(table, None), map[])
    {
      this.key, this.table, this.arpInstalled, this.installedMac := key, table, false, [0, 0, 0, 0, 0, 0];
      this.files, this.cache, this.writes := map[], map[], 0;
      new;
      EmptyStores();
    }

    method Install(mac: Mac, rows: Option<seq<Row>>, ok: bool)
      requires Valid() && (rows.Some? ==> Dumps(rows.value, table))
      modifies this
      ensures Valid()
      ensures Now() == old(Now()).(pin := PinWith(old(Now().pin), key, mac,
                                                  Io(rows.Some?, if ok then Done else Failed(false), true, true)))
      ensures (rows.Some? && InPlace(old(Now().pin), key, mac)) <==> writes == old(writes)
    {
      var present := FirstEntryIs(rows, table, key, mac);
      if arpInstalled && installedMac == mac && present {
        return;
      }
      writes := writes + 1;
      if !ok {
        return;
      }
      table := table[key := Entry(mac, true)];
      arpInstalled := true;
      installedMac := mac;
    }

    method Withdraw(ok: bool)
      requires Valid()
      modifies this
      ensures Valid() && Now() == old(Now()).(pin := Unpin(old(Now().pin), key, ok))
      ensures writes == old(writes) <==> !old(arpInstalled)
    {
      if !arpInstalled {
        return;
      }
      writes := writes + 1;
      if ok {
        table := table - {key};
      }
      arpInstalled := false;
    }

    method CachePut(own: Mac, router: Mac, result: PutResult)
      requires Valid()
      modifies this`files, this`cache
      ensures Valid() && cache == if result.Stored? then old(cache)[own := router] else old(cache)
    {
      FilePutRefines(files, cache, own, router, result);
      files := FilePut(files, own, router, result);
      cache := if result.Stored? then cache[own := router] else cache;
    }

    /** `reconcile` once its observation of the system is made. */
    method Act(sight: Sight, rows: Option<seq<Row>>, pinOk: bool, unpinOk: bool, put: PutResult)
      requires Valid() && (rows.Some? ==> Dumps(rows.value, table))
      modifies this
      ensures Valid()
      ensures Now() == Step(old(Now()), key, sight,
                            Io(rows.Some?, if pinOk then Done else Failed(false), unpinOk, put.Stored?))
      ensures writes == old(writes) <==> Quiet(old(Now()), key, sight, rows.Some?)
    {
      if sight.Gone? {
        arpInstalled := false;
        return;
      }
      if sight.Shut? {
        Withdraw(unpinOk);
        return;
      }
      if sight.router.Some? {
        Install(sight.router.value, rows, pinOk);
        if sight.own.Some? {
          CachePut(sight.own.value, sight.router.value, put);
        }
        return;
      }
      if sight.own.Some? {
        var cached := FileLookup(files, sight.own.value);
        assert cached == MapGet(cache, sight.own.value);
        if cached.Some? {
          Install(cached.value, rows, pinOk);
          return;
        }
      }
      Withdraw(unpinOk);
    }

    /** `reconcile`: observe, then act on the observation. */
    method Reconcile(present: bool, gateOpen: bool, own: Option<Mac>, ifindex: nat, routes: seq<Route6>, nd: seq<NdRow>,
                     rows: Option<seq<Row>>, pinOk: bool, unpinOk: bool, put: PutResult)
      returns (ghost sight: Sight)
      requires Valid() && (rows.Some? ==> Dumps(rows.value, table))
      modifies this
      ensures Valid() && Observed(Macos, sight, present, gateOpen, own, ifindex, routes, nd)
      ensures Now() == Step(old(Now()), key, sight,
                            Io(rows.Some?, if pinOk then Done else Failed(false), unpinOk, put.Stored?))
      ensures writes == old(writes) <==> Quiet(old(Now()), key, sight, rows.Some?)
    {
      var seen := MacObserve(present, gateOpen, own, ifindex, routes, nd);
      sight := seen;
      Act(seen, rows, pinOk, unpinOk, put);
    }
  }

  // ---- Windows --------------------------------------------------------------

  lemma PinAfterDelete(table: Table, key: Key, e: Entry)
    ensures (table - {key})[key := e] == table[key := e]
  {
  }

  lemma WithoutAbsent(table: Table, key: Key)
    ensures key !in table ==> table - {key} == table
  {
  }

  class WindowsDaemon {
    const key: Key
    var table: Table
    var installed: bool
    var installedMac: Mac
    var registry: map<string, string>
    ghost var cache: map<Mac, Mac>
    ghost var writes: nat

    ghost predicate Valid()
      reads this
    {
      RegistryHolds(registry, cache)
    }

    ghost function Now(): Daemon
      reads this
    {
      Daemon(Pin(table, if installed then Some(installedMac) else None), cache)
    }

    constructor (key: Key, table: Table)
      ensures Valid() && this.key == key && Now() == Daemon(Pin(table, None), map[])
    {
      this.key, this.table, this.installed, this.installedMac := key, table, false, [0, 0, 0, 0, 0, 0];
      this.registry, this.cache, this.writes := map[], map[], 0;
      new;
      EmptyStores();
    }

    /** Delete whatever is there, create the permanent entry, and set it when creation finds one after all. */
    method Install(mac: Mac, rows: Option<seq<Row>>, deleteOk: bool, createOk: bool, setOk: bool)
      returns (ghost result: PinResult)
      requires Valid() && (rows.Some? ==> Dumps(rows.value, table))
      modifies this
      ensures Valid()
      ensures Now() == old(Now()).(pin := PinWith(old(Now().pin), key, mac, Io(rows.Some?, result, true, true)))
      ensures createOk && setOk ==> result.Done?
      ensures (rows.Some? && InPlace(old(Now().pin), key, mac)) <==> writes == old(writes)
    {
      var present := FirstEntryIs(rows, table, key, mac);
      if installed && installedMac == mac && present {
        return Done;
      }
      ghost var before := table;
      writes := writes + 1;
      if deleteOk {
        table := table - {key};
      }
      var there := key in table;
      var ok := if there then setOk else createOk;
      if !ok {
        WithoutAbsent(before, key);
        return Failed(deleteOk);
      }
      PinAfterDelete(before, key, Entry(mac, true));
      table := table[key := Entry(mac, true)];
      installed := true;
      installedMac := mac;
      return Done;
    }

    method Withdraw(ok: bool)
      requires Valid()
      modifies this
      ensures Valid() && Now() == old(Now()).(pin := Unpin(old(Now().pin), key, ok))
      ensures writes == old(writes) <==> !old(installed)
    {
      if !installed {
        return;
      }
      writes := writes + 1;
      if ok {
        table := table - {key};
      }
      installed := false;
    }

    method CachePut(own: Mac, router: Mac, ok: bool)
      requires Valid()
      modifies this`registry, this`cache
      ensures Valid() && cache == if ok then old(cache)[own := router] else old(cache)
    {
      if ok {
        RegistryPutRefines(registry, cache, own, router);
        registry := RegistryPut(registry, own, router);
        cache := cache[own := router];
      }
    }

    method Act(sight: Sight, rows: Option<seq<Row>>, deleteOk: bool, createOk: bool, setOk: bool, storeOk: bool)
      returns (ghost result: PinResult)
      requires Valid() && (rows.Some? ==> Dumps(rows.value, table))
      modifies this
      ensures Valid()
      ensures Now() == Step(old(Now()), key, sight, Io(rows.Some?, result, deleteOk, storeOk))
      ensures createOk && setOk ==> result.Done?
      ensures writes == old(writes) <==> Quiet(old(Now()), key, sight, rows.Some?)
    {
      result := Done;
      if sight.Gone? {
        installed := false;
        return;
      }
      if sight.Shut? {
        Withdraw(deleteOk);
        return;
      }
      if sight.router.Some? {
        result := Install(sight.router.value, rows, deleteOk, createOk, setOk);
        if sight.own.Some? {
          CachePut(sight.own.value, sight.router.value, storeOk);
        }
        return;
      }
      if sight.own.Some? {
        var cached := RegistryLookup(registry, sight.own.value);
        assert cached == MapGet(cache, sight.own.value);
        if cached.Some? {
          result := Install(cached.value, rows, deleteOk, createOk, setOk);
          return;
        }
      }
      Withdraw(deleteOk);
    }

    /** `reconcile`: observe, then act on the observation. */
    method Reconcile(present: bool, gateOpen: bool, own: Option<Mac>, ifindex: nat, routes: seq<Route6>, nd: seq<NdRow>,
                     rows: Option<seq<Row>>, deleteOk: bool, createOk: bool, setOk: bool, storeOk: bool)
      returns (ghost sight: Sight, ghost result: PinResult)
      requires Valid() && (rows.Some? ==> Dumps(rows.value, table))
      modifies this
      ensures Valid() && Observed(Windows, sight, present, gateOpen, own, ifindex, routes, nd)
      ensures Now() == Step(old(Now()), key, sight, Io(rows.Some?, result, deleteOk, storeOk))
      ensures createOk && setOk ==> result.Done?
      ensures writes == old(writes) <==> Quiet(old(Now()), key, sight, rows.Some?)
    {
      var seen := WindowsObserve(present, gateOpen, own, ifindex, routes, nd);
      sight := seen;
      result := Act(seen, rows, deleteOk, createOk, setOk, storeOk);
    }
  }
}
