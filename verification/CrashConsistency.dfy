/**
 * Write-ahead consistency of the return-route daemon: at every point where the process may die,
 * each proto-149 route in the kernel is listed in the state file on disk.
 */
module CrashConsistency {
  import opened Prelude
  import opened StateFile
  import opened ReturnRoutes

  // ---- invariants -----------------------------------------------------------

  ghost predicate CleanHosts(hosts: map<string, Host>) {
    forall m :: m in hosts ==> CleanRow(RowOf(m, hosts[m]))
  }

  /** Every route has a row in the state file. */
  ghost predicate Covered(w: World) {
    forall ip4 :: ip4 in w.routes ==> Listed(StateRows(w.state), ip4)
  }

  /** What must hold of kernel and disk wherever the process may die. */
  ghost predicate OnDisk(w: World) {
    Covered(w) && DistinctMacs(StateRows(w.state))
  }

  /** Memory holds well-formed hosts and accounts for every route. */
  ghost predicate Accounted(w: World) {
    CleanHosts(w.hosts.vals) && Tracked(w)
  }

  /** What holds of memory, kernel and disk between handlers. */
  ghost predicate Settled(w: World) {
    && OnDisk(w)
    && Accounted(w)
    && forall m :: m in w.hosts.vals ==> Listed(StateRows(w.state), w.hosts.vals[m].ip4)
  }

  /** `OnDisk` holds before, between and after the operations. */
  ghost predicate Safe(ops: seq<Op>, w: World) {
    OnDisk(w) && (ops != [] ==> Safe(ops[1..], Apply(ops[0], w)))
  }

  lemma {:induction false} SafeConcat(a: seq<Op>, b: seq<Op>, w: World)
    requires Safe(a, w) && Safe(b, ApplyAll(a, w))
    ensures Safe(a + b, w)
  {
    if a == [] {
      assert a + b == b;
    } else {
      assert (a + b)[0] == a[0] && (a + b)[1..] == a[1..] + b;
      SafeConcat(a[1..], b, Apply(a[0], w));
    }
  }

  lemma SafeThen(a: seq<Op>, b: seq<Op>, w: World)
    requires Safe(a, w) && Safe(b, ApplyAll(a, w))
    ensures Safe(a + b, w)
    ensures ApplyAll(a + b, w) == ApplyAll(b, ApplyAll(a, w))
  {
    SafeConcat(a, b, w);
    ApplyAllConcat(a, b, w);
  }

  lemma {:induction false} SafeAtEveryPoint(ops: seq<Op>, k: nat, w: World)
    requires Safe(ops, w) && k <= |ops|
    ensures OnDisk(ApplyAll(ops[..k], w)) && Safe(ops[..k], w)
  {
    if k != 0 {
      assert ops[..k][0] == ops[0] && ops[..k][1..] == ops[1..][..k - 1];
      SafeAtEveryPoint(ops[1..], k - 1, Apply(ops[0], w));
    }
  }

  // ---- persist --------------------------------------------------------------

  lemma RowsOfHosts(hosts: Dict<string, Host>)
    requires CleanHosts(hosts.vals)
    ensures DistinctMacs(RowsOf(hosts)) && CleanRows(RowsOf(hosts))
    ensures forall m :: m in hosts.vals ==> Listed(RowsOf(hosts), hosts.vals[m].ip4)
  {
  }

  /** Leaving the state file alone and adding no route is always safe. */
  lemma OnDiskFrame(w: World, w': World)
    requires OnDisk(w) && w'.state == w.state && w'.routes.Keys <= w.routes.Keys
    ensures OnDisk(w')
  {
  }

  lemma {:induction false} WritesBuildTheFile(rows: seq<Row>, w: World)
    requires w.tmp.Some?
    ensures OnDisk(w) ==> Safe(WriteOps(rows), w)
    ensures ApplyAll(WriteOps(rows), w) == w.(tmp := Some(w.tmp.value + RenderRows(rows)))
  {
    if rows == [] {
      assert w.tmp.value + "" == w.tmp.value;
    } else {
      var w1 := Apply(TmpWrite(rows[0]), w);
      if OnDisk(w) {
        OnDiskFrame(w, w1);
      }
      assert WriteOps(rows)[1..] == WriteOps(rows[1..]);
      WritesBuildTheFile(rows[1..], w1);
      assert w1.tmp.value + RenderRows(rows[1..]) == w.tmp.value + RenderRows(rows);
    }
  }

  lemma SafeOne(op: Op, w: World)
    requires OnDisk(w) && OnDisk(Apply(op, w))
    ensures Safe([op], w) && ApplyAll([op], w) == Apply(op, w)
  {
  }

  /** The state file that a completed persist leaves behind. */
  lemma WrittenStateSettled(w: World)
    requires Accounted(w)
    requires w.state == Some(RenderRows(RowsOf(w.hosts)))
    ensures Settled(w)
  {
    RowsOfHosts(w.hosts);
    RowsRoundTrip(RowsOf(w.hosts));
  }

  lemma TmpHoldsTheTable(w: World)
    ensures var ops := [TmpOpen] + WriteOps(RowsOf(w.hosts));
            && (OnDisk(w) ==> Safe(ops, w))
            && ApplyAll(ops, w) == w.(tmp := Some(RenderRows(RowsOf(w.hosts))))
  {
    var rows := RowsOf(w.hosts);
    var w1 := w.(tmp := Some(""));
    WritesBuildTheFile(rows, w1);
    assert "" + RenderRows(rows) == RenderRows(rows);
    ApplySnoc([], TmpOpen, w);
    assert [] + [TmpOpen] == [TmpOpen];
    ApplyAllConcat([TmpOpen], WriteOps(rows), w);
    if OnDisk(w) {
      OnDiskFrame(w, w1);
      SafeOne(TmpOpen, w);
      SafeConcat([TmpOpen], WriteOps(rows), w);
    }
  }

  lemma RenamePublishes(w: World, text: string)
    requires OnDisk(w) && w.tmp == Some(text) && OnDisk(w.(state := Some(text), tmp := None))
    ensures Safe([Rename], w) && ApplyAll([Rename], w) == w.(state := Some(text), tmp := None)
  {
  }

  /** A persist that completes replaces the state file by the table and touches nothing else. */
  lemma PersistWrites(w: World)
    ensures ApplyAll(FullPersistOps(w.hosts), w) == w.(state := Some(RenderRows(RowsOf(w.hosts))), tmp := None)
  {
    var text := RenderRows(RowsOf(w.hosts));
    var fill := [TmpOpen] + WriteOps(RowsOf(w.hosts));
    TmpHoldsTheTable(w);
    ApplySnoc(fill, Rename, w);
  }

  /** When memory accounts for every route, it does so safely at every step. */
  lemma PersistIsAtomic(w: World)
    requires OnDisk(w) && Accounted(w)
    ensures Safe(FullPersistOps(w.hosts), w)
    ensures ApplyAll(FullPersistOps(w.hosts), w) == w.(state := Some(RenderRows(RowsOf(w.hosts))), tmp := None)
    ensures Settled(w.(state := Some(RenderRows(RowsOf(w.hosts))), tmp := None))
  {
    var text := RenderRows(RowsOf(w.hosts));
    var fill := [TmpOpen] + WriteOps(RowsOf(w.hosts));
    var w2 := w.(tmp := Some(text));
    TmpHoldsTheTable(w);
    WrittenStateSettled(w.(state := Some(text), tmp := None));
    OnDiskFrame(w, w2);
    RenamePublishes(w2, text);
    SafeThen(fill, [Rename], w);
  }

  // ---- handlers -------------------------------------------------------------

  /** State writes and route deletions succeed. */
  predicate Reliable(env: Env) {
    env.deleteOk && env.diskFailsAt.None?
  }

  /** Changing only timers and next hops of hosts keeps which addresses are held. */
  lemma SameAddresses(w: World, w': World)
    requires w'.hosts.vals.Keys == w.hosts.vals.Keys
    requires forall m :: m in w.hosts.vals ==> w'.hosts.vals[m].ip4 == w.hosts.vals[m].ip4
    requires forall m :: m in w.hosts.vals ==> w'.hosts.vals[m].iface == w.hosts.vals[m].iface
    requires w'.routes.Keys <= w.routes.Keys && w'.state == w.state
    ensures forall ip4 :: Held(w.hosts.vals, ip4) ==> Held(w'.hosts.vals, ip4)
    ensures Accounted(w) ==> Accounted(w')
    ensures Settled(w) ==> Settled(w')
  {
    assert forall ip4, m :: HeldBy(w.hosts.vals, ip4, m) ==> HeldBy(w'.hosts.vals, ip4, m);
  }

  /** What an evaluation of a host holding `ip4` may do. */
  predicate Evaluating(op: Op, ip4: string) {
    op.Arm? || op.Disarm? || op.Kick? || op.Record? || (op.Install? && op.ip4 == ip4)
  }

  lemma TimersKeepAddresses(op: Op, w: World)
    requires op.Arm? || op.Disarm? || op.Kick? || op.Record?
    ensures var w' := Apply(op, w);
            && w'.routes == w.routes && w'.state == w.state && w'.hosts.vals.Keys == w.hosts.vals.Keys
            && forall m :: m in w.hosts.vals ==>
                 w'.hosts.vals[m].ip4 == w.hosts.vals[m].ip4 && w'.hosts.vals[m].iface == w.hosts.vals[m].iface
  {
  }

  lemma InstallSettled(w: World, mac: string, route: Route)
    requires Settled(w) && mac in w.hosts.vals
    ensures Settled(w.(routes := w.routes[w.hosts.vals[mac].ip4 := route]))
  {
    assert HeldBy(w.hosts.vals, w.hosts.vals[mac].ip4, mac);
  }

  lemma EvaluatingSettled(op: Op, w: World, mac: string)
    requires Settled(w) && mac in w.hosts.vals && Evaluating(op, w.hosts.vals[mac].ip4)
    ensures Settled(Apply(op, w))
    ensures mac in Apply(op, w).hosts.vals && Apply(op, w).hosts.vals[mac].ip4 == w.hosts.vals[mac].ip4
  {
    if op.Install? {
      InstallSettled(w, mac, op.route);
    } else {
      TimersKeepAddresses(op, w);
      SameAddresses(w, Apply(op, w));
    }
  }

  lemma {:induction false} EvaluationSettled(ops: seq<Op>, w: World, mac: string)
    requires Settled(w) && mac in w.hosts.vals
    requires forall i :: 0 <= i < |ops| ==> Evaluating(ops[i], w.hosts.vals[mac].ip4)
    ensures Safe(ops, w) && Settled(ApplyAll(ops, w))
  {
    if ops != [] {
      EvaluatingSettled(ops[0], w, mac);
      EvaluationSettled(ops[1..], Apply(ops[0], w), mac);
    }
  }

  lemma EvaluateIsEvaluating(w: World, env: Env, mac: string)
    requires mac in w.hosts.vals
    ensures forall i :: 0 <= i < |EvaluateOps(w, env, mac)| ==>
              Evaluating(EvaluateOps(w, env, mac)[i], w.hosts.vals[mac].ip4)
  {
  }

  lemma EvaluateSettled(w: World, env: Env, mac: string)
    requires Settled(w)
    ensures Safe(EvaluateOps(w, env, mac), w) && Settled(ApplyAll(EvaluateOps(w, env, mac), w))
  {
    if mac in w.hosts.vals {
      EvaluateIsEvaluating(w, env, mac);
      EvaluationSettled(EvaluateOps(w, env, mac), w, mac);
    }
  }

  /** Dropping a host's route makes its slot free for another lease, or for none. */
  lemma SlotFreed(w: World, mac: string, w': World)
    requires Accounted(w) && OnDisk(w) && mac in w.hosts.vals
    requires w'.routes == w.routes - {w.hosts.vals[mac].ip4} && w'.state == w.state
    requires forall m :: m in w.hosts.vals && m != mac ==> m in w'.hosts.vals && w'.hosts.vals[m] == w.hosts.vals[m]
    requires CleanHosts(w'.hosts.vals)
    ensures Accounted(w') && OnDisk(w')
  {
    assert forall ip4, m :: HeldBy(w.hosts.vals, ip4, m) && m != mac ==> HeldBy(w'.hosts.vals, ip4, m);
  }

  lemma HostAdded(w: World, mac: string, h: Host)
    requires Accounted(w) && OnDisk(w) && mac !in w.hosts.vals && CleanRow(RowOf(mac, h))
    ensures Accounted(Apply(Track(mac, h), w)) && OnDisk(Apply(Track(mac, h), w))
  {
    var w' := Apply(Track(mac, h), w);
    OnDiskFrame(w, w');
    assert forall ip4, m :: HeldBy(w.hosts.vals, ip4, m) ==> HeldBy(w'.hosts.vals, ip4, m);
  }

  /** Before the state file is written, a lease leaves every route accounted for. */
  lemma LeaseTableSafe(w: World, env: Env, iface: string, mac: string, ip4: string)
    requires Settled(w) && Reliable(env) && CleanRow(Row(mac, iface, ip4))
    ensures var ops := LeaseTableOps(w, env, iface, mac, ip4);
            Safe(ops, w) && OnDisk(ApplyAll(ops, w)) && Accounted(ApplyAll(ops, w))
  {
    var newHost := Host(iface, ip4, None, None);
    var arm := Arm(mac, env.now);
    if LeaseChanged(w, iface, mac, ip4) {
      var w1 := Apply(Withdraw(w.hosts.vals[mac].ip4, true), w);
      OnDiskFrame(w, w1);
      var w2 := Apply(Track(mac, newHost), w1);
      SlotFreed(w, mac, w2);
      SafeOne(Withdraw(w.hosts.vals[mac].ip4, true), w);
      SafeOne(Track(mac, newHost), w1);
      SafeThen([Withdraw(w.hosts.vals[mac].ip4, true)], [Track(mac, newHost)], w);
      ArmSafe(w2, arm);
      SafeThen([Withdraw(w.hosts.vals[mac].ip4, true)] + [Track(mac, newHost)], [arm], w);
    } else if mac in w.hosts.vals {
      ArmSafe(w, arm);
      assert LeaseTableOps(w, env, iface, mac, ip4) == [arm];
    } else {
      var w1 := Apply(Track(mac, newHost), w);
      HostAdded(w, mac, newHost);
      SafeOne(Track(mac, newHost), w);
      ArmSafe(w1, arm);
      SafeThen([Track(mac, newHost)], [arm], w);
      assert LeaseTableOps(w, env, iface, mac, ip4) == [Track(mac, newHost)] + [arm];
    }
  }

  lemma ArmSafe(w: World, op: Op)
    requires op.Arm? && OnDisk(w) && Accounted(w)
    ensures Safe([op], w) && ApplyAll([op], w) == Apply(op, w)
    ensures OnDisk(Apply(op, w)) && Accounted(Apply(op, w))
  {
    TimersKeepAddresses(op, w);
    OnDiskFrame(w, Apply(op, w));
    SafeOne(op, w);
    SameAddresses(w, Apply(op, w));
  }

  lemma LeaseSettled(w: World, env: Env, iface: string, mac: string, ip4: string)
    requires Settled(w) && Reliable(env) && CleanRow(Row(mac, iface, ip4))
    ensures var ops := OnLeaseOps(w, env, iface, mac, ip4);
            Safe(ops, w) && Settled(ApplyAll(ops, w))
  {
    var table := LeaseTableOps(w, env, iface, mac, ip4);
    LeaseTableSafe(w, env, iface, mac, ip4);
    var w1 := ApplyAll(table, w);
    var persist := FullPersistOps(w1.hosts);
    PersistIsAtomic(w1);
    var w2 := ApplyAll(persist, w1);
    var eval := EvaluateOps(w1, env, mac);
    assert eval == EvaluateOps(w2, env, mac);
    EvaluateSettled(w2, env, mac);
    SafeThen(table, persist, w);
    SafeThen(table + persist, eval, w);
  }

  lemma ReleaseSettled(w: World, env: Env, mac: string)
    requires Settled(w) && Reliable(env)
    ensures var ops := OnReleaseOps(w, env, mac);
            Safe(ops, w) && Settled(ApplyAll(ops, w))
  {
    if mac in w.hosts.vals {
      var drop := Withdraw(w.hosts.vals[mac].ip4, true);
      var w1 := Apply(Untrack(mac), w);
      var w2 := Apply(drop, w1);
      OnDiskFrame(w, w1);
      SlotFreed(w, mac, w2);
      SafeOne(Untrack(mac), w);
      SafeOne(drop, w1);
      SafeThen([Untrack(mac)], [drop], w);
      assert [Untrack(mac)] + [drop] == [Untrack(mac), drop];
      PersistIsAtomic(w2);
      SafeThen([Untrack(mac), drop], FullPersistOps(w2.hosts), w);
    }
  }
}
