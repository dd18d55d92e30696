/** Runs from a fresh start that reach the failing side of each condition on the return-route daemon. */
module Failures {
  import opened Prelude
  import opened Inet
  import opened Text
  import opened NextHop
  import opened StateFile
  import opened ReturnRoutes
  import opened Effects
  import opened Handlers
  import opened CrashConsistency
  import opened CrashRuns
  import opened CrashLimits
  import opened ShadowRuns
  import opened Stickiness

  // ---- one host on one interface --------------------------------------------

  const MAC := "02:00:00:00:00:01"
  const IFACE := "br0"
  const IP4 := "192.0.2.1"
  const OTHER_IP4 := "192.0.2.2"

  /** fe80::1. */
  const HOP: In6 := [0xfe, 0x80, 0, 0, 0, 0, 0, 0, 0, 0, 0, 0, 0, 0, 0, 1]

  /** The interface is up and the host's link-local address is REACHABLE. */
  const NET := Net([Link(IFACE, 1)], [], true, [Neighbour(1, Some(HOP), Some(MAC), 0x02)])

  /** Every call succeeds. */
  const FINE := Env(NET, 0, true, true, None)

  function LeaseLine(ip4: string): string {
    "add" + " " + (IFACE + " " + (MAC + " " + ip4))
  }

  function Leased(env: Env, ip4: string): Item {
    Do(Line(env, LeaseLine(ip4)))
  }

  function Released(env: Env): Item {
    Do(Line(env, "del" + " " + (IFACE + " " + (MAC + " " + IP4))))
  }

  lemma CleanFields()
    ensures CleanRow(Row(MAC, IFACE, IP4)) && CleanRow(Row(MAC, IFACE, OTHER_IP4))
  {
    assert Lower(MAC) == MAC;
  }

  lemma Parsed(ip4: string)
    requires Token(ip4)
    ensures ParseRequest(LeaseLine(ip4)) == Lease(IFACE, MAC, ip4)
    ensures ParseRequest("del" + " " + (IFACE + " " + (MAC + " " + IP4))) == Release(MAC)
  {
    CleanFields();
    assert ip4 + "" == ip4 && IP4 + "" == IP4;
    LineMeans("add", IFACE, MAC, ip4, "");
    LineMeans("del", IFACE, MAC, IP4, "");
  }

  lemma HopIsBest()
    ensures Index(NET, IFACE) == Some(1) && BestNexthop(NET, 1, MAC) == Some(HOP)
  {
    CleanFields();
    var n := NET.neighbours[0];
    assert BelongsTo(n, 1, MAC);
    assert CacheUpTo(NET.neighbours, 0, 1, MAC) == EmptyDict();
    var cache := Cache(NET, 1, MAC);
    assert cache == Put(EmptyDict(), HOP, 0x02) && cache.keys == [HOP];
    assert FirstUsable(cache, [], Global) == None && FirstUsable(cache, [HOP], Global) == None;
    assert FirstUsable(cache, [HOP], Fe80) == Some(HOP);
  }

  lemma RunOne(w: World, e: Event)
    ensures Run(w, [Do(e)]) == ApplyAll(EventOps(w, e), w)
  {
    assert [Do(e)][1..] == [];
  }

  /** A new or changed lease whose host has a usable neighbour. */
  lemma LeaseLands(w: World, env: Env, iface: string, mac: string, ip4: string, idx: nat, hop: In6)
    requires mac !in w.hosts.vals || LeaseChanged(w, iface, mac, ip4)
    requires Index(env.net, iface) == Some(idx) && BestNexthop(env.net, idx, mac) == Some(hop)
    ensures var w' := ApplyAll(OnLeaseOps(w, env, iface, mac, ip4), w);
            var kept := if mac in w.hosts.vals && env.deleteOk then w.routes - {w.hosts.vals[mac].ip4} else w.routes;
            && w'.hosts.vals.Keys == w.hosts.vals.Keys + {mac}
            && w'.hosts.vals[mac].iface == iface && w'.hosts.vals[mac].ip4 == ip4 && w'.hosts.vals[mac].nh == Some(hop)
            && w'.routes == if env.installOk then kept[ip4 := Route(idx, hop)] else kept
  {
    LeaseEffect(w, env, iface, mac, ip4);
  }

  lemma LeasedIs(w: World, env: Env, ip4: string)
    requires Token(ip4)
    ensures Run(w, [Leased(env, ip4)]) == ApplyAll(OnLeaseOps(w, env, IFACE, MAC, ip4), w)
  {
    Parsed(ip4);
    RunOne(w, Line(env, LeaseLine(ip4)));
  }

  /** The tables after the first lease. */
  lemma FirstLease(env: Env)
    requires env.net == NET
    ensures var w := Run(FRESH_WORLD, [Leased(env, IP4)]);
            && w.hosts.vals.Keys == {MAC}
            && w.hosts.vals[MAC].iface == IFACE && w.hosts.vals[MAC].ip4 == IP4 && w.hosts.vals[MAC].nh == Some(HOP)
            && w.routes == if env.installOk then map[IP4 := Route(1, HOP)] else map[]
  {
    CleanFields();
    HopIsBest();
    LeasedIs(FRESH_WORLD, env, IP4);
    LeaseLands(FRESH_WORLD, env, IFACE, MAC, IP4, 1, HOP);
  }

  // ---- a refused install ----------------------------------------------------

  /** The first lease with a refused install records a next hop that the kernel does not have. */
  lemma RefusedInstallIsNotExact(ix: string -> nat)
    ensures !Exact(Run(FRESH_WORLD, [Leased(FINE.(installOk := false), IP4)]), ix)
  {
    FirstLease(FINE.(installOk := false));
  }

  lemma SweepsSpareMissing(w: World, sweeps: seq<Item>)
    requires w.hosts.vals.Keys == {MAC} && w.routes == map[]
    requires w.hosts.vals[MAC].iface == IFACE && w.hosts.vals[MAC].ip4 == IP4 && w.hosts.vals[MAC].nh == Some(HOP)
    requires forall i :: 0 <= i < |sweeps| ==> sweeps[i] == Do(Evaluate(FINE, MAC))
    ensures RouteFor(Run(w, sweeps), IP4) == None
  {
    HopIsBest();
    HopIsSticky(w, sweeps, MAC, IFACE, IP4, HOP);
  }

  /** And no number of later sweeps over the same neighbours puts the route in, though installs succeed again. */
  lemma RefusedForGood(sweeps: seq<Item>)
    requires forall i :: 0 <= i < |sweeps| ==> sweeps[i] == Do(Evaluate(FINE, MAC))
    ensures RouteFor(Run(Run(FRESH_WORLD, [Leased(FINE.(installOk := false), IP4)]), sweeps), IP4) == None
  {
    FirstLease(FINE.(installOk := false));
    SweepsSpareMissing(Run(FRESH_WORLD, [Leased(FINE.(installOk := false), IP4)]), sweeps);
  }

  // ---- failing writes and deletes -------------------------------------------

  /** The first lease with a failed state write leaves a route that no file lists. */
  lemma FailedWriteUncovers()
    ensures !Covered(Run(FRESH_WORLD, [Leased(FINE.(diskFailsAt := Some(0)), IP4)]))
  {
    var env := FINE.(diskFailsAt := Some(0));
    FirstLease(env);
    CleanFields();
    LeasedIs(FRESH_WORLD, env, IP4);
    LeaseWithoutWrite(FRESH_WORLD, env, IFACE, MAC, IP4);
    assert IP4 in Run(FRESH_WORLD, [Leased(env, IP4)]).routes;
  }

  lemma RunTwo(w: World, a: Item, b: Item)
    ensures Run(w, [a, b]) == Run(Run(w, [a]), [b])
  {
    assert [a, b][1..] == [b] && [a][1..] == [] && [b][1..] == [];
  }

  lemma ReleasedIs(w: World, env: Env)
    ensures Run(w, [Released(env)]) == ApplyAll(OnReleaseOps(w, env, MAC), w)
  {
    CleanFields();
    Parsed(IP4);
    RunOne(w, Released(env).e);
  }

  /** A release with a failed delete leaves a route for an untracked address that no file lists. */
  lemma FailedDeleteOnReleaseUncovers()
    ensures var w := Run(FRESH_WORLD, [Leased(FINE, IP4), Released(FINE.(deleteOk := false))]);
            !Tracked(w) && !Covered(w)
  {
    var w := Run(FRESH_WORLD, [Leased(FINE, IP4)]);
    var env := FINE.(deleteOk := false);
    FirstLease(FINE);
    HostsCleanOverRuns(FRESH_WORLD, [Leased(FINE, IP4)]);
    RunTwo(FRESH_WORLD, Leased(FINE, IP4), Released(env));
    ReleasedIs(w, env);
    ReleaseWrites(w, env, MAC);
    StrandedRoute(ApplyAll(OnReleaseOps(w, env, MAC), w), Remove(w.hosts, MAC), MAC, IP4);
  }

  /** A route for an address that neither the table nor the file written from it holds. */
  lemma StrandedRoute(w: World, table: Dict<string, Host>, mac: string, ip4: string)
    requires ip4 in w.routes && StateRows(w.state) == RowsOf(table)
    requires w.hosts.vals.Keys <= {mac} && table.vals.Keys <= {mac}
    requires mac in w.hosts.vals ==> w.hosts.vals[mac].ip4 != ip4
    requires mac in table.vals ==> table.vals[mac].ip4 != ip4
    ensures !Tracked(w) && !Covered(w)
  {
    ListedMeansHeld(table, ip4);
  }

  /** A changed lease with a failed delete leaves the old route untracked and unlisted. */
  lemma FailedDeleteOnChangeUncovers()
    ensures var w := Run(FRESH_WORLD, [Leased(FINE, IP4), Leased(FINE.(deleteOk := false), OTHER_IP4)]);
            !Tracked(w) && !Covered(w)
  {
    var w := Run(FRESH_WORLD, [Leased(FINE, IP4)]);
    FirstLease(FINE);
    HostsCleanOverRuns(FRESH_WORLD, [Leased(FINE, IP4)]);
    RunTwo(FRESH_WORLD, Leased(FINE, IP4), Leased(FINE.(deleteOk := false), OTHER_IP4));
    MovedLeaseStrands(w, FINE.(deleteOk := false));
  }

  /** A host moves to a new address while nobody withdraws the route of its old one. */
  lemma MoveStrands(w: World, env: Env, iface: string, mac: string, was: string, ip4: string, idx: nat, hop: In6)
    requires CleanHosts(w.hosts.vals) && CleanRow(Row(mac, iface, ip4)) && env.diskFailsAt.None?
    requires Index(env.net, iface) == Some(idx) && BestNexthop(env.net, idx, mac) == Some(hop)
    requires w.hosts.vals.Keys <= {mac} && was in w.routes && was != ip4
    requires mac in w.hosts.vals ==> w.hosts.vals[mac].ip4 == was && !env.deleteOk
    ensures var w' := ApplyAll(OnLeaseOps(w, env, iface, mac, ip4), w); !Tracked(w') && !Covered(w')
  {
    LeaseLands(w, env, iface, mac, ip4, idx, hop);
    LeaseWrites(w, env, iface, mac, ip4);
    OnlyHost(w, env, iface, mac, ip4);
    StrandedRoute(ApplyAll(OnLeaseOps(w, env, iface, mac, ip4), w), LeaseTable(w, env, iface, mac, ip4).hosts, mac,
                  was);
  }

  lemma OnlyHost(w: World, env: Env, iface: string, mac: string, ip4: string)
    requires w.hosts.vals.Keys <= {mac}
    ensures var hosts := LeaseTable(w, env, iface, mac, ip4).hosts.vals; hosts.Keys == {mac} && hosts[mac].ip4 == ip4
  {
  }

  lemma MovedLeaseStrands(w: World, env: Env)
    requires env.net == NET && env.diskFailsAt.None? && CleanHosts(w.hosts.vals) && w.hosts.vals.Keys <= {MAC}
    requires IP4 in w.routes && (MAC in w.hosts.vals ==> w.hosts.vals[MAC].ip4 == IP4 && !env.deleteOk)
    ensures var w' := Run(w, [Leased(env, OTHER_IP4)]); !Tracked(w') && !Covered(w')
  {
    CleanFields();
    HopIsBest();
    LeasedIs(w, env, OTHER_IP4);
    assert IP4[8] != OTHER_IP4[8];
    MoveStrands(w, env, IFACE, MAC, IP4, OTHER_IP4, 1, HOP);
  }

  // ---- a restart that prunes ------------------------------------------------

  /** The daemon dies idle and restarts on an empty lease file. */
  const RESTART := Die(External({}), 0, 0, Some(""))

  lemma {:induction false} NoneKept(rows: seq<Row>)
    ensures KeptRows(rows, Some({})) == []
  {
    if rows != [] {
      NoneKept(rows[1..]);
    }
  }

  lemma RestartEmpties(w: World)
    ensures Run(w, [RESTART]) == w.(hosts := EmptyDict())
  {
    assert CutOps(w, External({}), 0) == [];
    BootEffect(w, 0, Some(""));
    assert LiveLeases(Some("")) == Some({});
    NoneKept(StateRows(w.state));
    assert [] + BootOps(w, 0, Some("")) == BootOps(w, 0, Some(""));
    assert [RESTART][1..] == [];
  }

  /**
   * A lease expires while the daemon is down and the host comes back with another address: though
   * every call succeeds, the old route is untracked and in no file.
   */
  lemma ExpiredLeaseLosesItsRow()
    ensures var w := Run(Run(FRESH_WORLD, [Leased(FINE, IP4), RESTART]), [Leased(FINE, OTHER_IP4)]);
            !Tracked(w) && !Covered(w)
  {
    var w := Run(FRESH_WORLD, [Leased(FINE, IP4)]);
    FirstLease(FINE);
    RunTwo(FRESH_WORLD, Leased(FINE, IP4), RESTART);
    RestartEmpties(w);
    MovedLeaseStrands(w.(hosts := EmptyDict()), FINE);
  }
}
