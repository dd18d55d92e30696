/** The persist/restore round trip in every reachable state, and exactly when crash consistency is lost. */
module CrashLimits {
  import opened Prelude
  import opened Text
  import opened NextHop
  import opened StateFile
  import opened ReturnRoutes
  import opened CrashConsistency
  import opened CrashRuns
  import opened Effects

  // ---- well-formed fields in every reachable state --------------------------

  /** An operation that stores a host stores fields that came from whitespace splitting. */
  predicate StoresCleanFields(op: Op) {
    && (op.Track? ==> CleanRow(RowOf(op.mac, op.host)))
    && (op.Reload? ==> CleanRow(op.row))
  }

  ghost predicate AllClean(ops: seq<Op>) {
    forall i :: 0 <= i < |ops| ==> StoresCleanFields(ops[i])
  }

  lemma CleanPut(d: Dict<string, Host>, mac: string, h: Host)
    requires CleanHosts(d.vals) && CleanRow(RowOf(mac, h))
    ensures CleanHosts(Put(d, mac, h).vals)
  {
  }

  /** Rewriting the timer or the next hop of a host keeps its fields. */
  lemma CleanUpdate(d: Dict<string, Host>, mac: string, h: Host)
    requires CleanHosts(d.vals) && mac in d.vals && RowOf(mac, h) == RowOf(mac, d.vals[mac])
    ensures CleanHosts(Put(d, mac, h).vals)
  {
  }

  lemma CleanAfterProbe(w: World, mac: string, p: Option<int>)
    requires CleanHosts(w.hosts.vals)
    ensures CleanHosts(SetProbe(w, mac, p).hosts.vals)
  {
  }

  lemma CleanAfterOp(op: Op, w: World)
    requires CleanHosts(w.hosts.vals) && StoresCleanFields(op)
    ensures CleanHosts(Apply(op, w).hosts.vals)
  {
    match op {
      case Track(mac, host) => CleanPut(w.hosts, mac, host);
      case Reload(row, at) => CleanPut(w.hosts, row.mac, RestoredHost(row, at));
      case Arm(mac, at) => CleanAfterProbe(w, mac, Some(at + GUA_PROBE_DELAY));
      case Disarm(mac) => CleanAfterProbe(w, mac, None);
      case Kick(mac, _, _, _) => CleanAfterProbe(w, mac, None);
      case Record(mac, nh) =>
        if mac in w.hosts.vals {
          CleanUpdate(w.hosts, mac, w.hosts.vals[mac].(nh := Some(nh)));
        }
      case _ => CleanAfterDrop(op, w);
    }
  }

  /** The other operations add no host. */
  lemma CleanAfterDrop(op: Op, w: World)
    requires CleanHosts(w.hosts.vals)
    requires !op.Track? && !op.Reload? && !op.Arm? && !op.Disarm? && !op.Kick? && !op.Record?
    ensures CleanHosts(Apply(op, w).hosts.vals)
  {
    var hosts := Apply(op, w).hosts.vals;
    assert forall m :: m in hosts ==> m in w.hosts.vals && hosts[m] == w.hosts.vals[m];
  }

  lemma {:induction false} CleanAfterOps(ops: seq<Op>, w: World)
    requires CleanHosts(w.hosts.vals) && AllClean(ops)
    ensures CleanHosts(ApplyAll(ops, w).hosts.vals)
  {
    if ops != [] {
      CleanAfterOp(ops[0], w);
      CleanAfterOps(ops[1..], Apply(ops[0], w));
    }
  }

  lemma EvaluateStoresNothing(w: World, env: Env, mac: string)
    ensures AllClean(EvaluateOps(w, env, mac))
  {
    if mac in w.hosts.vals {
      EvaluateIsEvaluating(w, env, mac);
    }
  }

  lemma PersistStoresNothing(hosts: Dict<string, Host>, env: Env)
    ensures AllClean(PersistOps(hosts, env))
  {
    PersistShape(hosts, env);
  }

  lemma LeaseStoresCleanFields(w: World, env: Env, iface: string, mac: string, ip4: string)
    requires CleanRow(Row(mac, iface, ip4))
    ensures AllClean(OnLeaseOps(w, env, iface, mac, ip4))
  {
    var table := LeaseTableOps(w, env, iface, mac, ip4);
    var w1 := ApplyAll(table, w);
    assert AllClean(table);
    PersistStoresNothing(w1.hosts, env);
    EvaluateStoresNothing(w1, env, mac);
    AllCleanConcat(table, PersistOps(w1.hosts, env));
    AllCleanConcat(table + PersistOps(w1.hosts, env), EvaluateOps(w1, env, mac));
  }

  lemma ReleaseStoresNothing(w: World, env: Env, mac: string)
    ensures AllClean(OnReleaseOps(w, env, mac))
  {
    PersistStoresNothing(Remove(w.hosts, mac), env);
  }

  lemma EventStoresCleanFields(w: World, e: Event)
    ensures AllClean(EventOps(w, e))
  {
    match e
    case Line(env, text) =>
      match ParseRequest(text) {
        case Lease(iface, mac, ip4) => LeaseStoresCleanFields(w, env, iface, mac, ip4);
        case Release(mac) => ReleaseStoresNothing(w, env, mac);
        case Ignored =>
      }
    case Evaluate(env, mac) => EvaluateStoresNothing(w, env, mac);
    case External(ips) =>
  }

  lemma {:induction false} RestoreStoresCleanFields(rows: seq<Row>, live: Live, now: int)
    requires CleanRows(rows)
    ensures AllClean(RestoreOps(rows, live, now))
  {
    if rows != [] {
      RestoreStoresCleanFields(rows[1..], live, now);
    }
  }

  lemma BootStoresCleanFields(w: World, now: int, leaseFile: Option<string>)
    ensures AllClean(BootOps(w, now, leaseFile))
  {
    if w.state.Some? {
      ParsedRowsAreClean(Lines(w.state.value));
    }
    RestoreStoresCleanFields(StateRows(w.state), LiveLeases(leaseFile), now);
  }

  lemma AllCleanConcat(a: seq<Op>, b: seq<Op>)
    requires AllClean(a) && AllClean(b)
    ensures AllClean(a + b)
  {
  }

  lemma ItemStoresCleanFields(w: World, item: Item)
    ensures AllClean(ItemOps(w, item))
  {
    EventStoresCleanFields(w, item.e);
    if item.Die? {
      var cut := CutOps(w, item.e, item.k);
      var boot := BootOps(ApplyAll(cut, w), item.now, item.leaseFile);
      BootStoresCleanFields(ApplyAll(cut, w), item.now, item.leaseFile);
      AllCleanConcat(cut, boot);
    }
  }

  /** Whatever happens in a run, stored fields are tokens and MACs are lower-case. */
  lemma {:induction false} HostsCleanOverRuns(w: World, items: seq<Item>)
    requires CleanHosts(w.hosts.vals)
    ensures CleanHosts(Run(w, items).hosts.vals)
    decreases |items|
  {
    if items != [] {
      ItemStoresCleanFields(w, items[0]);
      CleanAfterOps(ItemOps(w, items[0]), w);
      HostsCleanOverRuns(ApplyAll(ItemOps(w, items[0]), w), items[1..]);
    }
  }

  // ---- round trip -----------------------------------------------------------

  lemma WrittenRowsReadBack(w: World)
    requires CleanHosts(w.hosts.vals)
    ensures var w1 := ApplyAll(FullPersistOps(w.hosts), w);
            && w1.hosts == w.hosts && w1.routes == w.routes
            && StateRows(w1.state) == RowsOf(w.hosts) && DistinctMacs(StateRows(w1.state))
  {
    PersistWrites(w);
    RowsOfHosts(w.hosts);
    RowsRoundTrip(RowsOf(w.hosts));
  }

  /** A completed persist followed by a restart gives the same rows back, minus the leases dnsmasq dropped. */
  lemma PersistRestoreRoundTrip(w: World, now: int, leaseFile: Option<string>)
    requires CleanHosts(w.hosts.vals)
    ensures var w1 := ApplyAll(FullPersistOps(w.hosts), w);
            var w2 := ApplyAll(BootOps(w1, now, leaseFile), w1);
            && RowsOf(w2.hosts) == KeptRows(RowsOf(w.hosts), LiveLeases(leaseFile))
            && w2.routes == w.routes
            && forall m :: m in w2.hosts.vals ==>
                 w2.hosts.vals[m].nh == None && w2.hosts.vals[m].probeAt == Some(now + GUA_PROBE_DELAY)
  {
    WrittenRowsReadBack(w);
    var w1 := ApplyAll(FullPersistOps(w.hosts), w);
    BootRestores(w1, now, leaseFile);
    BootEffect(w1, now, leaseFile);
    var kept := KeptRows(StateRows(w1.state), LiveLeases(leaseFile));
    forall m | m in RestoreInto(EmptyDict(), kept, now).vals
      ensures RestoreInto(EmptyDict(), kept, now).vals[m].nh == None
      ensures RestoreInto(EmptyDict(), kept, now).vals[m].probeAt == Some(now + GUA_PROBE_DELAY)
    {
      RestoredFields(EmptyDict(), kept, now, m);
    }
  }

  /** The round trip holds after every run of a process that starts with an empty table, crashes included. */
  lemma RoundTripInEveryReachableState(w: World, items: seq<Item>, now: int, leaseFile: Option<string>)
    requires w.hosts.vals == map[]
    ensures var w1 := Run(w, items);
            var w2 := ApplyAll(FullPersistOps(w1.hosts), w1);
            RowsOf(ApplyAll(BootOps(w2, now, leaseFile), w2).hosts) == KeptRows(RowsOf(w1.hosts), LiveLeases(leaseFile))
  {
    HostsCleanOverRuns(w, items);
    PersistRestoreRoundTrip(Run(w, items), now, leaseFile);
  }

  // ---- a restart that prunes ------------------------------------------------

  /** Once a restart is followed by a state write, coverage holds iff the restart pruned no lease with a route. */
  lemma CoverageAfterRestartIff(w: World, now: int, leaseFile: Option<string>)
    requires OnDisk(w)
    ensures var w1 := ApplyAll(BootOps(w, now, leaseFile), w);
            Covered(ApplyAll(FullPersistOps(w1.hosts), w1)) <==> PruneSafe(w, LiveLeases(leaseFile))
  {
    BootRestores(w, now, leaseFile);
    WrittenRowsReadBack(ApplyAll(BootOps(w, now, leaseFile), w));
    PruneSafeMeansKept(w, LiveLeases(leaseFile));
  }

  // ---- failing writes and deletions -----------------------------------------

  /** The evaluation of `mac` changes the kernel's route. */
  predicate Installs(w: World, env: Env, mac: string) {
    var t := Evaluable(w, env, mac);
    && t.Some? && env.installOk
    && var best := BestNexthop(env.net, t.value.1, mac); best.Some? && best != t.value.0.nh
  }

  lemma LeaseWithoutWrite(w: World, env: Env, iface: string, mac: string, ip4: string)
    requires var table := LeaseTable(w, env, iface, mac, ip4);
             env.diskFailsAt.Some? && env.diskFailsAt.value < |FullPersistOps(table.hosts)|
    ensures ApplyAll(OnLeaseOps(w, env, iface, mac, ip4), w).state == w.state
  {
    var w1 := LeaseTable(w, env, iface, mac, ip4);
    var table, persist := LeaseTableOps(w, env, iface, mac, ip4), PersistOps(w1.hosts, env);
    LeaseTableEffect(w, env, iface, mac, ip4);
    PersistShape(w1.hosts, env);
    DiskOpsKeepTables(persist, w1);
    var w2 := ApplyAll(persist, w1);
    ApplyAllConcat(table, persist, w);
    ApplyAllConcat(table + persist, EvaluateOps(w1, env, mac), w);
    EvaluateReadsTables(w1, w2, env, mac);
    EvaluateEffect(w2, env, mac);
  }

  lemma LeaseTableClean(w: World, env: Env, iface: string, mac: string, ip4: string)
    requires CleanHosts(w.hosts.vals) && CleanRow(Row(mac, iface, ip4))
    ensures CleanHosts(LeaseTable(w, env, iface, mac, ip4).hosts.vals)
  {
    var h := LeaseTable(w, env, iface, mac, ip4).hosts.vals[mac];
    CleanPut(w.hosts, mac, h);
  }

  /** A lease whose state write succeeds leaves exactly the new table in the file. */
  lemma LeaseWrites(w: World, env: Env, iface: string, mac: string, ip4: string)
    requires CleanHosts(w.hosts.vals) && CleanRow(Row(mac, iface, ip4)) && env.diskFailsAt.None?
    ensures var w' := ApplyAll(OnLeaseOps(w, env, iface, mac, ip4), w);
            && SameTables(Evaluated(LeaseTable(w, env, iface, mac, ip4), env, mac), w')
            && StateRows(w'.state) == RowsOf(LeaseTable(w, env, iface, mac, ip4).hosts)
  {
    var w1 := LeaseTable(w, env, iface, mac, ip4);
    var table, persist := LeaseTableOps(w, env, iface, mac, ip4), FullPersistOps(w1.hosts);
    LeaseTableEffect(w, env, iface, mac, ip4);
    LeaseTableClean(w, env, iface, mac, ip4);
    WrittenRowsReadBack(w1);
    var w2 := ApplyAll(persist, w1);
    ApplyAllConcat(table, persist, w);
    ApplyAllConcat(table + persist, EvaluateOps(w1, env, mac), w);
    EvaluateReadsTables(w1, w2, env, mac);
    EvaluateEffect(w2, env, mac);
  }

  lemma LeaseTableRoutes(w: World, env: Env, iface: string, mac: string, ip4: string)
    ensures var table := LeaseTable(w, env, iface, mac, ip4);
            && table.routes.Keys <= w.routes.Keys
            && mac in table.hosts.vals && table.hosts.vals[mac].ip4 == ip4
  {
  }

  lemma EvaluatedRoutes(w: World, env: Env, mac: string)
    requires mac in w.hosts.vals
    ensures Evaluated(w, env, mac).routes.Keys ==
            w.routes.Keys + if Installs(w, env, mac) then {w.hosts.vals[mac].ip4} else {}
  {
  }

  /** When the state write fails, a lease stays covered iff its address was listed already or no route was put in. */
  lemma CoverageAfterFailedWriteIff(w: World, env: Env, iface: string, mac: string, ip4: string)
    requires OnDisk(w)
    requires var table := LeaseTable(w, env, iface, mac, ip4);
             env.diskFailsAt.Some? && env.diskFailsAt.value < |FullPersistOps(table.hosts)|
    ensures Covered(ApplyAll(OnLeaseOps(w, env, iface, mac, ip4), w)) <==>
              Listed(StateRows(w.state), ip4) || !Installs(LeaseTable(w, env, iface, mac, ip4), env, mac)
  {
    var table := LeaseTable(w, env, iface, mac, ip4);
    var w' := ApplyAll(OnLeaseOps(w, env, iface, mac, ip4), w);
    LeaseWithoutWrite(w, env, iface, mac, ip4);
    LeaseEffect(w, env, iface, mac, ip4);
    LeaseTableRoutes(w, env, iface, mac, ip4);
    EvaluatedRoutes(table, env, mac);
    assert w'.routes.Keys == table.routes.Keys + if Installs(table, env, mac) then {ip4} else {};
    if Installs(table, env, mac) {
      assert ip4 in w'.routes;
    }
  }

  lemma ReleaseWrites(w: World, env: Env, mac: string)
    requires mac in w.hosts.vals && env.diskFailsAt.None? && CleanHosts(w.hosts.vals)
    ensures var w' := ApplyAll(OnReleaseOps(w, env, mac), w);
            SameTables(ReleaseTable(w, env, mac), w') && StateRows(w'.state) == RowsOf(Remove(w.hosts, mac))
  {
    var drop := Withdraw(w.hosts.vals[mac].ip4, env.deleteOk);
    var ops := [Untrack(mac), drop];
    var w1 := Apply(drop, Apply(Untrack(mac), w));
    ApplyTwo(Untrack(mac), drop, w);
    ApplyAllConcat(ops, FullPersistOps(w1.hosts), w);
    CleanAfterOp(Untrack(mac), w);
    WrittenRowsReadBack(w1);
  }

  /** When the deletion fails, a release stays covered iff there was no route or another host holds the address. */
  lemma CoverageAfterReleaseIff(w: World, env: Env, mac: string)
    requires Settled(w) && mac in w.hosts.vals && env.diskFailsAt.None?
    ensures var ip4 := w.hosts.vals[mac].ip4;
            Covered(ApplyAll(OnReleaseOps(w, env, mac), w)) <==>
              env.deleteOk || ip4 !in w.routes || Held(Remove(w.hosts, mac).vals, ip4)
  {
    var ip4 := w.hosts.vals[mac].ip4;
    var w' := ApplyAll(OnReleaseOps(w, env, mac), w);
    ReleaseWrites(w, env, mac);
    forall a | a in w'.routes
      ensures Listed(StateRows(w'.state), a) <==> Held(Remove(w.hosts, mac).vals, a)
      ensures a != ip4 ==> Held(Remove(w.hosts, mac).vals, a)
    {
      ListedMeansHeld(Remove(w.hosts, mac), a);
      var m :| HeldBy(w.hosts.vals, a, m);
      assert m != mac ==> HeldBy(Remove(w.hosts, mac).vals, a, m);
    }
  }
}
