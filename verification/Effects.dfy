/** What each handler of the return-route daemon leaves behind, as one value instead of a sequence of steps. */
module Effects {
  import opened Prelude
  import opened Inet
  import opened NextHop
  import opened StateFile
  import opened ReturnRoutes

  /** The same host table and the same kernel routes. */
  ghost predicate SameTables(w: World, w': World) {
    w'.hosts == w.hosts && w'.routes == w.routes
  }

  // ---- evaluation -----------------------------------------------------------

  /** A host record after its evaluation found `best` and `gua`. */
  function EvaluatedHost(h: Host, best: Option<In6>, gua: Option<In6>, now: int): Host {
    h.(nh := if best.Some? then best else h.nh,
       probeAt := if gua.Some? && (best == gua || (h.probeAt.Some? && now >= h.probeAt.value)) then None
                  else h.probeAt)
  }

  function EvaluatedAt(w: World, env: Env, mac: string, h: Host, idx: nat): World {
    var best := BestNexthop(env.net, idx, mac);
    w.(hosts := Put(w.hosts, mac, EvaluatedHost(h, best, DerivedGua(env.net, idx, mac), env.now)),
       routes := if best.Some? && best != h.nh && env.installOk then w.routes[h.ip4 := Route(idx, best.value)]
                 else w.routes)
  }

  /** The host's record and interface index, when the host is tracked and its interface exists. */
  function Evaluable(w: World, env: Env, mac: string): Option<(Host, nat)> {
    if mac !in w.hosts.vals then None
    else
      var idx := Index(env.net, w.hosts.vals[mac].iface);
      if idx.None? then None else Some((w.hosts.vals[mac], idx.value))
  }

  function Evaluated(w: World, env: Env, mac: string): World {
    var t := Evaluable(w, env, mac);
    if t.None? then w else EvaluatedAt(w, env, mac, t.value.0, t.value.1)
  }

  lemma PutTwice<V>(d: Dict<string, V>, k: string, a: V, b: V)
    ensures Put(Put(d, k, a), k, b) == Put(d, k, b)
    ensures k in d.vals ==> Put(d, k, d.vals[k]) == d
  {
  }

  lemma ProbeEffect(w: World, mac: string, best: Option<In6>, gua: Option<In6>, now: int)
    requires mac in w.hosts.vals
    ensures var h := w.hosts.vals[mac];
            ApplyAll(ProbeOps(h, mac, best, gua, now), w) ==
            w.(hosts := Put(w.hosts, mac, h.(probeAt := EvaluatedHost(h, best, gua, now).probeAt)))
  {
    var h := w.hosts.vals[mac];
    PutTwice(w.hosts, mac, h, h);
    var ops := ProbeOps(h, mac, best, gua, now);
    if ops != [] {
      ApplyOne(ops[0], w);
    }
    assert h.(probeAt := h.probeAt) == h;
  }

  lemma RouteEffect(w: World, mac: string, idx: nat, best: Option<In6>, ok: bool)
    requires mac in w.hosts.vals
    ensures var h := w.hosts.vals[mac];
            ApplyAll(RouteOps(h, mac, idx, best, ok), w) ==
            w.(hosts := Put(w.hosts, mac, h.(nh := if best.Some? then best else h.nh)),
               routes := if best.Some? && best != h.nh && ok then w.routes[h.ip4 := Route(idx, best.value)]
                         else w.routes)
  {
    var h := w.hosts.vals[mac];
    PutTwice(w.hosts, mac, h, h);
    if best.None? || best == h.nh {
      assert h.(nh := h.nh) == h;
    } else {
      ApplyTwo(Install(h.ip4, Route(idx, best.value), ok), Record(mac, best.value), w);
    }
  }

  lemma EvaluateEffect(w: World, env: Env, mac: string)
    ensures ApplyAll(EvaluateOps(w, env, mac), w) == Evaluated(w, env, mac)
  {
    var t := Evaluable(w, env, mac);
    if t.Some? {
      var (h, idx) := t.value;
      var best, gua := BestNexthop(env.net, idx, mac), DerivedGua(env.net, idx, mac);
      EvaluateEffectAt(w, env, mac, idx, best, gua);
    }
  }

  lemma EvaluateEffectAt(w: World, env: Env, mac: string, idx: nat, best: Option<In6>, gua: Option<In6>)
    requires mac in w.hosts.vals
    ensures var h := w.hosts.vals[mac];
            ApplyAll(ProbeOps(h, mac, best, gua, env.now) + RouteOps(h, mac, idx, best, env.installOk), w) ==
            w.(hosts := Put(w.hosts, mac, EvaluatedHost(h, best, gua, env.now)),
               routes := if best.Some? && best != h.nh && env.installOk then w.routes[h.ip4 := Route(idx, best.value)]
                         else w.routes)
  {
    var h := w.hosts.vals[mac];
    var h1 := h.(probeAt := EvaluatedHost(h, best, gua, env.now).probeAt);
    var w1 := w.(hosts := Put(w.hosts, mac, h1));
    ProbeEffect(w, mac, best, gua, env.now);
    assert RouteOps(h1, mac, idx, best, env.installOk) == RouteOps(h, mac, idx, best, env.installOk);
    RouteEffect(w1, mac, idx, best, env.installOk);
    ApplyAllConcat(ProbeOps(h, mac, best, gua, env.now), RouteOps(h, mac, idx, best, env.installOk), w);
    PutTwice(w.hosts, mac, h1, EvaluatedHost(h, best, gua, env.now));
  }

  // ---- persistence leaves the tables alone ----------------------------------

  predicate DiskOp(op: Op) {
    op.TmpOpen? || op.TmpWrite? || op.Rename?
  }

  lemma {:induction false} DiskOpsKeepTables(ops: seq<Op>, w: World)
    requires forall i :: 0 <= i < |ops| ==> DiskOp(ops[i])
    ensures SameTables(w, ApplyAll(ops, w))
    ensures (forall i :: 0 <= i < |ops| ==> !ops[i].Rename?) ==> ApplyAll(ops, w).state == w.state
  {
    if ops != [] {
      DiskOpsKeepTables(ops[1..], Apply(ops[0], w));
    }
  }

  lemma WriteOpsAreWrites(rows: seq<Row>)
    ensures |WriteOps(rows)| == |rows|
    ensures forall i :: 0 <= i < |rows| ==> WriteOps(rows)[i] == TmpWrite(rows[i])
  {
  }

  lemma PersistShape(hosts: Dict<string, Host>, env: Env)
    ensures forall i :: 0 <= i < |PersistOps(hosts, env)| ==> DiskOp(PersistOps(hosts, env)[i])
    ensures env.diskFailsAt.Some? && env.diskFailsAt.value < |FullPersistOps(hosts)| ==>
              forall i :: 0 <= i < |PersistOps(hosts, env)| ==> !PersistOps(hosts, env)[i].Rename?
  {
    WriteOpsAreWrites(RowsOf(hosts));
  }

  lemma PersistEffect(w: World, hosts: Dict<string, Host>, env: Env)
    ensures SameTables(w, ApplyAll(PersistOps(hosts, env), w))
  {
    PersistShape(hosts, env);
    DiskOpsKeepTables(PersistOps(hosts, env), w);
  }

  // ---- lease events ---------------------------------------------------------

  /** The tables after `on_lease` has changed the lease and before it evaluates the host. */
  function LeaseTable(w: World, env: Env, iface: string, mac: string, ip4: string): World {
    var armed := Some(env.now + GUA_PROBE_DELAY);
    if mac in w.hosts.vals && !LeaseChanged(w, iface, mac, ip4)
    then w.(hosts := Put(w.hosts, mac, w.hosts.vals[mac].(probeAt := armed)))
    else w.(hosts := Put(w.hosts, mac, Host(iface, ip4, None, armed)),
            routes := if mac in w.hosts.vals && env.deleteOk then w.routes - {w.hosts.vals[mac].ip4} else w.routes)
  }

  lemma ArmTracked(w: World, d: Dict<string, Host>, mac: string, h: Host, now: int)
    requires w.hosts == Put(d, mac, h)
    ensures Apply(Arm(mac, now), w) == w.(hosts := Put(d, mac, h.(probeAt := Some(now + GUA_PROBE_DELAY))))
  {
    PutTwice(d, mac, h, h.(probeAt := Some(now + GUA_PROBE_DELAY)));
  }

  lemma TrackThenArm(w: World, mac: string, h: Host, now: int)
    ensures ApplyAll([Track(mac, h), Arm(mac, now)], w) ==
            w.(hosts := Put(w.hosts, mac, h.(probeAt := Some(now + GUA_PROBE_DELAY))))
  {
    ApplyTwo(Track(mac, h), Arm(mac, now), w);
    ArmTracked(Apply(Track(mac, h), w), w.hosts, mac, h, now);
  }

  lemma LeaseTableEffect(w: World, env: Env, iface: string, mac: string, ip4: string)
    ensures ApplyAll(LeaseTableOps(w, env, iface, mac, ip4), w) == LeaseTable(w, env, iface, mac, ip4)
  {
    var ops := LeaseTableOps(w, env, iface, mac, ip4);
    var h := Host(iface, ip4, None, None);
    if mac in w.hosts.vals && !LeaseChanged(w, iface, mac, ip4) {
      assert ops == [Arm(mac, env.now)];
      ApplyOne(Arm(mac, env.now), w);
    } else if mac in w.hosts.vals {
      var drop := Withdraw(w.hosts.vals[mac].ip4, env.deleteOk);
      assert ops == [drop] + [Track(mac, h), Arm(mac, env.now)];
      ApplyCons(drop, [Track(mac, h), Arm(mac, env.now)], w);
      TrackThenArm(Apply(drop, w), mac, h, env.now);
    } else {
      assert ops == [Track(mac, h), Arm(mac, env.now)];
      TrackThenArm(w, mac, h, env.now);
    }
  }

  lemma LeaseEffect(w: World, env: Env, iface: string, mac: string, ip4: string)
    ensures SameTables(Evaluated(LeaseTable(w, env, iface, mac, ip4), env, mac),
                       ApplyAll(OnLeaseOps(w, env, iface, mac, ip4), w))
  {
    var table := LeaseTableOps(w, env, iface, mac, ip4);
    LeaseTableEffect(w, env, iface, mac, ip4);
    var w1 := LeaseTable(w, env, iface, mac, ip4);
    var persist := PersistOps(w1.hosts, env);
    PersistEffect(w1, w1.hosts, env);
    var w2 := ApplyAll(persist, w1);
    ApplyAllConcat(table, persist, w);
    ApplyAllConcat(table + persist, EvaluateOps(w1, env, mac), w);
    EvaluateReadsTables(w1, w2, env, mac);
  }

  lemma EvaluateReadsTables(w: World, w': World, env: Env, mac: string)
    requires SameTables(w, w')
    ensures EvaluateOps(w', env, mac) == EvaluateOps(w, env, mac)
    ensures SameTables(Evaluated(w, env, mac), ApplyAll(EvaluateOps(w', env, mac), w'))
  {
    EvaluateEffect(w', env, mac);
  }

  function ReleaseTable(w: World, env: Env, mac: string): World {
    if mac !in w.hosts.vals then w
    else w.(hosts := Remove(w.hosts, mac),
            routes := if env.deleteOk then w.routes - {w.hosts.vals[mac].ip4} else w.routes)
  }

  lemma ReleaseEffect(w: World, env: Env, mac: string)
    ensures SameTables(ReleaseTable(w, env, mac), ApplyAll(OnReleaseOps(w, env, mac), w))
  {
    if mac in w.hosts.vals {
      var drop := Withdraw(w.hosts.vals[mac].ip4, env.deleteOk);
      var ops := [Untrack(mac), drop];
      var w1 := Apply(drop, Apply(Untrack(mac), w));
      ApplyTwo(Untrack(mac), drop, w);
      ApplyAllConcat(ops, PersistOps(Remove(w.hosts, mac), env), w);
      PersistEffect(w1, Remove(w.hosts, mac), env);
    }
  }
}
