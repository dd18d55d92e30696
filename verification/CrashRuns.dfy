/** Crash consistency over whole runs with any number of crashes and restarts, and exactly when it fails. */
module CrashRuns {
  import opened Prelude
  import opened Text
  import opened StateFile
  import opened ReturnRoutes
  import opened CrashConsistency

  type Live = Option<set<(string, string)>>

  // ---- restore --------------------------------------------------------------

  function RestoreInto(d: Dict<string, Host>, kept: seq<Row>, now: int): Dict<string, Host>
    decreases |kept|
  {
    if kept == [] then d else RestoreInto(Put(d, kept[0].mac, RestoredHost(kept[0], now)), kept[1..], now)
  }

  lemma RestoreStep(rows: seq<Row>, live: Live, now: int)
    requires rows != []
    ensures RestoreOps(rows, live, now) ==
            if Kept(rows[0], live) then [Reload(rows[0], now)] + RestoreOps(rows[1..], live, now)
            else RestoreOps(rows[1..], live, now)
  {
  }

  lemma RestoreIntoStep(d: Dict<string, Host>, r: Row, kept: seq<Row>, now: int)
    ensures RestoreInto(d, [r] + kept, now) == RestoreInto(Put(d, r.mac, RestoredHost(r, now)), kept, now)
  {
  }

  lemma {:induction false} RestoreBuildsTable(rows: seq<Row>, live: Live, now: int, w: World)
    ensures ApplyAll(RestoreOps(rows, live, now), w) ==
            w.(hosts := RestoreInto(w.hosts, KeptRows(rows, live), now))
    decreases |rows|
  {
    if rows != [] {
      var r, rest, kept := rows[0], RestoreOps(rows[1..], live, now), KeptRows(rows[1..], live);
      RestoreStep(rows, live, now);
      if Kept(r, live) {
        var w1 := w.(hosts := Put(w.hosts, r.mac, RestoredHost(r, now)));
        assert Apply(Reload(r, now), w) == w1;
        RestoreBuildsTable(rows[1..], live, now, w1);
        ApplyCons(Reload(r, now), rest, w);
        RestoreIntoStep(w.hosts, r, kept, now);
      } else {
        RestoreBuildsTable(rows[1..], live, now, w);
      }
    }
  }

  lemma {:induction false} RestoreSafe(rows: seq<Row>, live: Live, now: int, w: World)
    requires OnDisk(w)
    ensures Safe(RestoreOps(rows, live, now), w)
    decreases |rows|
  {
    if rows != [] {
      RestoreStep(rows, live, now);
      if Kept(rows[0], live) {
        var op := Reload(rows[0], now);
        OnDiskFrame(w, Apply(op, w));
        SafeOne(op, w);
        RestoreSafe(rows[1..], live, now, Apply(op, w));
        SafeConcat([op], RestoreOps(rows[1..], live, now), w);
      } else {
        RestoreSafe(rows[1..], live, now, w);
      }
    }
  }

  ghost predicate NewMacs(d: Dict<string, Host>, kept: seq<Row>) {
    DistinctMacs(kept) && forall i :: 0 <= i < |kept| ==> kept[i].mac !in d.vals
  }

  lemma RowsOfPut(d: Dict<string, Host>, mac: string, h: Host)
    requires mac !in d.vals
    ensures RowsOf(Put(d, mac, h)) == RowsOf(d) + [RowOf(mac, h)]
  {
  }

  lemma NewMacsTail(d: Dict<string, Host>, kept: seq<Row>, h: Host)
    requires NewMacs(d, kept) && kept != []
    ensures NewMacs(Put(d, kept[0].mac, h), kept[1..])
  {
  }

  /** The restored table has exactly the kept rows, in file order. */
  lemma {:induction false} RestoredRows(d: Dict<string, Host>, kept: seq<Row>, now: int)
    requires NewMacs(d, kept)
    ensures RowsOf(RestoreInto(d, kept, now)) == RowsOf(d) + kept
    decreases |kept|
  {
    if kept == [] {
      assert RowsOf(d) + kept == RowsOf(d);
    } else {
      var h := RestoredHost(kept[0], now);
      RowsOfPut(d, kept[0].mac, h);
      assert RowOf(kept[0].mac, h) == kept[0];
      NewMacsTail(d, kept, h);
      RestoredRows(Put(d, kept[0].mac, h), kept[1..], now);
      Regroup(RowsOf(d), [kept[0]], kept[1..]);
      assert kept == [kept[0]] + kept[1..];
    }
  }

  /** Every restored host starts without a next hop and with a fresh probe timer. */
  lemma {:induction false} RestoredFields(d: Dict<string, Host>, kept: seq<Row>, now: int, m: string)
    requires m in RestoreInto(d, kept, now).vals
    ensures var h := RestoreInto(d, kept, now).vals[m];
            (m in d.vals && h == d.vals[m]) || (h.nh == None && h.probeAt == Some(now + GUA_PROBE_DELAY))
    decreases |kept|
  {
    if kept != [] {
      RestoredFields(Put(d, kept[0].mac, RestoredHost(kept[0], now)), kept[1..], now, m);
    }
  }

  lemma CleanFromRows(hosts: Dict<string, Host>)
    requires CleanRows(RowsOf(hosts))
    ensures CleanHosts(hosts.vals)
  {
  }

  /** A restart touches memory only. */
  lemma BootEffect(w: World, now: int, leaseFile: Option<string>)
    ensures ApplyAll(BootOps(w, now, leaseFile), w) ==
            w.(hosts := RestoreInto(EmptyDict(), KeptRows(StateRows(w.state), LiveLeases(leaseFile)), now))
  {
    var restore := RestoreOps(StateRows(w.state), LiveLeases(leaseFile), now);
    var w1 := w.(hosts := EmptyDict());
    assert Apply(Forget, w) == w1;
    ApplyCons(Forget, restore, w);
    RestoreBuildsTable(StateRows(w.state), LiveLeases(leaseFile), now, w1);
  }

  /** And is safe throughout. */
  lemma BootSafe(w: World, now: int, leaseFile: Option<string>)
    requires OnDisk(w)
    ensures Safe(BootOps(w, now, leaseFile), w)
  {
    var restore := RestoreOps(StateRows(w.state), LiveLeases(leaseFile), now);
    var w1 := Apply(Forget, w);
    OnDiskFrame(w, w1);
    SafeOne(Forget, w);
    RestoreSafe(StateRows(w.state), LiveLeases(leaseFile), now, w1);
    SafeConcat([Forget], restore, w);
  }

  /** `restore` on a state file: memory becomes the rows dnsmasq still leases. */
  lemma BootRestores(w: World, now: int, leaseFile: Option<string>)
    requires DistinctMacs(StateRows(w.state))
    ensures var w' := ApplyAll(BootOps(w, now, leaseFile), w);
            && w'.routes == w.routes && w'.state == w.state
            && RowsOf(w'.hosts) == KeptRows(StateRows(w.state), LiveLeases(leaseFile))
            && CleanHosts(w'.hosts.vals)
  {
    var kept := KeptRows(StateRows(w.state), LiveLeases(leaseFile));
    BootEffect(w, now, leaseFile);
    KeptRowsAre(StateRows(w.state), LiveLeases(leaseFile));
    RestoredRows(EmptyDict(), kept, now);
    assert RowsOf(EmptyDict<string, Host>()) + kept == kept;
    if w.state.Some? {
      ParsedRowsAreClean(Lines(w.state.value));
    }
    CleanFromRows(RestoreInto(EmptyDict(), kept, now));
  }

  /** A restart on a readable lease file keeps exactly the rows whose MAC and address it still leases. */
  lemma RestartKeepsLeasedRows(w: World, now: int, entries: seq<LeaseEntry>, r: Row)
    requires DistinctMacs(StateRows(w.state))
    requires forall i :: 0 <= i < |entries| ==> CleanEntry(entries[i])
    ensures var w' := ApplyAll(BootOps(w, now, Some(LeaseFileText(entries))), w);
            r in RowsOf(w'.hosts) <==> r in StateRows(w.state) && Leases(entries, r.mac, r.ip4)
  {
    BootRestores(w, now, Some(LeaseFileText(entries)));
    KeptRowsAre(StateRows(w.state), LiveLeases(Some(LeaseFileText(entries))));
    LeaseFileReadsBack(entries, r.mac, r.ip4);
  }

  // ---- runs -----------------------------------------------------------------

  /** Every address that still has a route is still leased by a row of the state file. */
  ghost predicate PruneSafe(w: World, live: Live) {
    forall ip4 :: ip4 in w.routes ==>
      exists i :: 0 <= i < |StateRows(w.state)| && StateRows(w.state)[i].ip4 == ip4 && Kept(StateRows(w.state)[i], live)
  }

  lemma PruneSafeMeansKept(w: World, live: Live)
    ensures PruneSafe(w, live) <==> forall ip4 :: ip4 in w.routes ==> Listed(KeptRows(StateRows(w.state), live), ip4)
  {
    var rows := StateRows(w.state);
    var kept := KeptRows(rows, live);
    KeptRowsAre(rows, live);
    forall ip4 | ip4 in w.routes
      ensures Listed(kept, ip4) <==> exists i :: 0 <= i < |rows| && rows[i].ip4 == ip4 && Kept(rows[i], live)
    {
      if Listed(kept, ip4) {
        var i :| 0 <= i < |kept| && kept[i].ip4 == ip4;
        assert kept[i] in kept;
      }
      if i :| 0 <= i < |rows| && rows[i].ip4 == ip4 && Kept(rows[i], live) {
        assert rows[i] in kept;
      }
    }
  }

  /** The live-lease file being unreadable prunes nothing, so it never endangers a route. */
  lemma UnreadableLeasesPruneNothing(w: World)
    requires Covered(w)
    ensures PruneSafe(w, None)
  {
  }

  lemma ListedMeansHeld(hosts: Dict<string, Host>, ip4: string)
    ensures Listed(RowsOf(hosts), ip4) <==> Held(hosts.vals, ip4)
  {
    if Listed(RowsOf(hosts), ip4) {
      var i :| 0 <= i < |RowsOf(hosts)| && RowsOf(hosts)[i].ip4 == ip4;
      assert HeldBy(hosts.vals, ip4, hosts.keys[i]);
    }
  }

  lemma TableSettled(w: World, rows: seq<Row>)
    requires OnDisk(w) && CleanHosts(w.hosts.vals) && rows == StateRows(w.state)
    requires forall i :: 0 <= i < |RowsOf(w.hosts)| ==> RowsOf(w.hosts)[i] in rows
    requires forall ip4 :: ip4 in w.routes ==> Listed(RowsOf(w.hosts), ip4)
    ensures Settled(w)
  {
    forall ip4 | ip4 in w.routes
      ensures Held(w.hosts.vals, ip4)
    {
      ListedMeansHeld(w.hosts, ip4);
    }
    forall m | m in w.hosts.vals
      ensures Listed(rows, w.hosts.vals[m].ip4)
    {
      var i :| 0 <= i < |w.hosts.keys| && w.hosts.keys[i] == m;
      assert RowsOf(w.hosts)[i] in rows;
    }
  }

  lemma BootSettled(w: World, now: int, leaseFile: Option<string>)
    requires OnDisk(w) && PruneSafe(w, LiveLeases(leaseFile))
    ensures Safe(BootOps(w, now, leaseFile), w) && Settled(ApplyAll(BootOps(w, now, leaseFile), w))
  {
    var w' := ApplyAll(BootOps(w, now, leaseFile), w);
    BootSafe(w, now, leaseFile);
    BootRestores(w, now, leaseFile);
    PruneSafeMeansKept(w, LiveLeases(leaseFile));
    KeptRowsAre(StateRows(w.state), LiveLeases(leaseFile));
    OnDiskFrame(w, w');
    TableSettled(w', StateRows(w.state));
  }

  predicate EventReliable(e: Event) {
    e.Line? ==> Reliable(e.env)
  }

  lemma EventSettled(w: World, e: Event)
    requires Settled(w) && EventReliable(e)
    ensures Safe(EventOps(w, e), w) && Settled(ApplyAll(EventOps(w, e), w))
  {
    match e
    case Line(env, text) =>
      var r := ParseRequest(text);
      match r {
        case Lease(iface, mac, ip4) => LeaseSettled(w, env, iface, mac, ip4);
        case Release(mac) => ReleaseSettled(w, env, mac);
        case Ignored =>
      }
    case Evaluate(env, mac) => EvaluateSettled(w, env, mac);
    case External(ips) =>
      SameAddresses(w, Apply(Flush(ips), w));
      SafeOne(Flush(ips), w);
  }

  /** Writes and deletions succeed, and no restart prunes a lease that still has a route. */
  ghost predicate ItemReliable(w: World, item: Item) {
    && EventReliable(item.e)
    && (item.Die? ==> PruneSafe(ApplyAll(CutOps(w, item.e, item.k), w), LiveLeases(item.leaseFile)))
  }

  ghost predicate RunReliable(w: World, items: seq<Item>)
    decreases |items|
  {
    items != [] ==> ItemReliable(w, items[0]) && RunReliable(ApplyAll(ItemOps(w, items[0]), w), items[1..])
  }

  lemma DeathSettled(w: World, item: Item)
    requires Settled(w) && item.Die? && ItemReliable(w, item)
    ensures Safe(ItemOps(w, item), w) && Settled(ApplyAll(ItemOps(w, item), w))
  {
    EventSettled(w, item.e);
    var cut := CutOps(w, item.e, item.k);
    assert cut == EventOps(w, item.e)[..|cut|];
    SafeAtEveryPoint(EventOps(w, item.e), |cut|, w);
    var w1 := ApplyAll(cut, w);
    BootSettled(w1, item.now, item.leaseFile);
    SafeThen(cut, BootOps(w1, item.now, item.leaseFile), w);
  }

  /** Over every reliable run, with crashes anywhere, kernel and disk stay consistent at every point. */
  lemma {:induction false} WriteAheadOverRuns(w: World, items: seq<Item>)
    requires Settled(w) && RunReliable(w, items)
    ensures Safe(RunOps(w, items), w) && Settled(ApplyAll(RunOps(w, items), w))
    decreases |items|
  {
    if items != [] {
      var ops := ItemOps(w, items[0]);
      if items[0].Do? {
        EventSettled(w, items[0].e);
      } else {
        DeathSettled(w, items[0]);
      }
      WriteAheadOverRuns(ApplyAll(ops, w), items[1..]);
      SafeThen(ops, RunOps(ApplyAll(ops, w), items[1..]), w);
    }
  }

  /**
   * A daemon starts on a machine without routes, say after a reboot, whatever state file and
   * temporary file it finds: a route never outlives its row in the state file, whatever the crash point.
   */
  lemma RoutesAlwaysOnDisk(w: World, items: seq<Item>, k: nat)
    requires w.routes == map[] && w.hosts.vals == map[] && DistinctMacs(StateRows(w.state))
    requires RunReliable(w, items) && k <= |RunOps(w, items)|
    ensures Covered(ApplyAll(RunOps(w, items)[..k], w))
  {
    WriteAheadOverRuns(w, items);
    SafeAtEveryPoint(RunOps(w, items), k, w);
  }
}
