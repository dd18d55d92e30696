/** A host whose recorded hop no kernel reading contradicts is left alone, for better or worse. */
module Stickiness {
  import opened Prelude
  import opened Inet
  import opened NextHop
  import opened ReturnRoutes
  import opened Effects
  import opened ShadowRuns
  import opened Sweeps

  /** Host `mac` alone holds `ip4`, on `iface`, and is recorded on `hop`. */
  ghost predicate OnHop(w: World, mac: string, iface: string, ip4: string, hop: In6) {
    && mac in w.hosts.vals
    && w.hosts.vals[mac].iface == iface && w.hosts.vals[mac].ip4 == ip4 && w.hosts.vals[mac].nh == Some(hop)
    && forall m :: m in w.hosts.vals && m != mac ==> w.hosts.vals[m].ip4 != ip4
  }

  /** The interface is absent, no neighbour is usable, or `hop` is still the best one. */
  predicate HopStays(net: Net, mac: string, iface: string, hop: In6) {
    var idx := Index(net, iface);
    idx.None? || BestNexthop(net, idx.value, mac) == None || BestNexthop(net, idx.value, mac) == Some(hop)
  }

  /** The interface is absent, or its /64 still derives `gua` and that neighbour is usable. */
  predicate GuaStays(net: Net, mac: string, iface: string, gua: In6) {
    var idx := Index(net, iface);
    idx.None? || (DerivedGua(net, idx.value, mac) == Some(gua) && Usable(Cache(net, idx.value, mac), gua))
  }

  /** Renewals of this lease, events of other hosts on other addresses, sweeps and foreign flushes elsewhere. */
  predicate Undisturbing(e: Event, mac: string, iface: string, ip4: string) {
    match e
    case Line(env, text) =>
      (match ParseRequest(text)
       case Lease(i, m, a) => if m == mac then i == iface && a == ip4 else a != ip4
       case Release(m) => m != mac
       case Ignored => true)
    case Evaluate(env, m) => true
    case External(ips) => ip4 !in ips
  }

  predicate ReadsHop(e: Event, mac: string, iface: string, hop: In6) {
    e.External? || HopStays(e.env.net, mac, iface, hop)
  }

  predicate ReadsGua(e: Event, mac: string, iface: string, gua: In6) {
    e.External? || GuaStays(e.env.net, mac, iface, gua)
  }

  /** A run without restarts that leaves the host's lease, address and best hop alone. */
  ghost predicate CalmFor(items: seq<Item>, mac: string, iface: string, ip4: string, hop: In6) {
    forall i :: 0 <= i < |items| ==>
      items[i].Do? && Undisturbing(items[i].e, mac, iface, ip4) && ReadsHop(items[i].e, mac, iface, hop)
  }

  predicate Touches(op: Op, ip4: string) {
    (RouteCall(op) && op.ip4 == ip4) || (op.Flush? && ip4 in op.ips)
  }

  ghost predicate Spares(ops: seq<Op>, ip4: string) {
    forall i :: 0 <= i < |ops| ==> !Touches(ops[i], ip4)
  }

  lemma {:induction false} SparedRouteStays(ops: seq<Op>, w: World, ip4: string)
    requires Spares(ops, ip4)
    ensures RouteFor(ApplyAll(ops, w), ip4) == RouteFor(w, ip4)
  {
    if ops != [] {
      SparedRouteStays(ops[1..], Apply(ops[0], w), ip4);
    }
  }

  lemma OwnEvaluationSpares(w: World, env: Env, mac: string, iface: string, ip4: string, hop: In6)
    requires OnHop(w, mac, iface, ip4, hop) && HopStays(env.net, mac, iface, hop)
    ensures Spares(EvaluateOps(w, env, mac), ip4)
    ensures OnHop(Evaluated(w, env, mac), mac, iface, ip4, hop)
  {
    var t := Evaluable(w, env, mac);
    if t.Some? {
      OpsForRecorded(t.value.0, mac, t.value.1, BestNexthop(env.net, t.value.1, mac),
                     DerivedGua(env.net, t.value.1, mac), env, ip4);
    }
  }

  lemma OpsForRecorded(h: Host, m: string, idx: nat, best: Option<In6>, gua: Option<In6>, env: Env, ip4: string)
    requires best == None || best == h.nh
    ensures Spares(ProbeOps(h, m, best, gua, env.now) + RouteOps(h, m, idx, best, env.installOk), ip4)
  {
  }

  lemma OtherEvaluationSpares(w: World, env: Env, m: string, mac: string, iface: string, ip4: string, hop: In6)
    requires OnHop(w, mac, iface, ip4, hop) && m != mac
    ensures Spares(EvaluateOps(w, env, m), ip4)
    ensures OnHop(Evaluated(w, env, m), mac, iface, ip4, hop)
  {
    var t := Evaluable(w, env, m);
    if t.Some? {
      OpsForElsewhere(t.value.0, m, t.value.1, BestNexthop(env.net, t.value.1, m),
                      DerivedGua(env.net, t.value.1, m), env, ip4);
    }
  }

  lemma OpsForElsewhere(h: Host, m: string, idx: nat, best: Option<In6>, gua: Option<In6>, env: Env, ip4: string)
    requires h.ip4 != ip4
    ensures Spares(ProbeOps(h, m, best, gua, env.now) + RouteOps(h, m, idx, best, env.installOk), ip4)
  {
  }

  lemma EvaluateSpares(w: World, env: Env, m: string, mac: string, iface: string, ip4: string, hop: In6)
    requires OnHop(w, mac, iface, ip4, hop) && HopStays(env.net, mac, iface, hop)
    ensures Spares(EvaluateOps(w, env, m), ip4)
    ensures OnHop(Evaluated(w, env, m), mac, iface, ip4, hop)
  {
    if m == mac {
      OwnEvaluationSpares(w, env, mac, iface, ip4, hop);
    } else {
      OtherEvaluationSpares(w, env, m, mac, iface, ip4, hop);
    }
  }

  lemma LeaseTableSpares(w: World, env: Env, i: string, m: string, a: string, mac: string, iface: string, ip4: string,
                         hop: In6)
    requires OnHop(w, mac, iface, ip4, hop)
    requires if m == mac then i == iface && a == ip4 else a != ip4
    ensures Spares(LeaseTableOps(w, env, i, m, a), ip4)
    ensures OnHop(LeaseTable(w, env, i, m, a), mac, iface, ip4, hop)
  {
  }

  lemma PersistSpares(hosts: Dict<string, Host>, env: Env, ip4: string)
    ensures Spares(PersistOps(hosts, env), ip4)
  {
    PersistShape(hosts, env);
  }

  lemma SparesConcat(a: seq<Op>, b: seq<Op>, ip4: string)
    requires Spares(a, ip4) && Spares(b, ip4)
    ensures Spares(a + b, ip4)
  {
  }

  lemma LeaseSpares(w: World, env: Env, i: string, m: string, a: string, mac: string, iface: string, ip4: string,
                    hop: In6)
    requires OnHop(w, mac, iface, ip4, hop) && HopStays(env.net, mac, iface, hop)
    requires if m == mac then i == iface && a == ip4 else a != ip4
    ensures Spares(OnLeaseOps(w, env, i, m, a), ip4)
    ensures OnHop(ApplyAll(OnLeaseOps(w, env, i, m, a), w), mac, iface, ip4, hop)
  {
    var table := LeaseTableOps(w, env, i, m, a);
    var w1 := LeaseTable(w, env, i, m, a);
    LeaseTableEffect(w, env, i, m, a);
    LeaseTableSpares(w, env, i, m, a, mac, iface, ip4, hop);
    PersistSpares(w1.hosts, env, ip4);
    EvaluateSpares(w1, env, m, mac, iface, ip4, hop);
    SparesConcat(table, PersistOps(w1.hosts, env), ip4);
    SparesConcat(table + PersistOps(w1.hosts, env), EvaluateOps(w1, env, m), ip4);
    LeaseEffect(w, env, i, m, a);
  }

  lemma ReleaseSpares(w: World, env: Env, m: string, mac: string, iface: string, ip4: string, hop: In6)
    requires OnHop(w, mac, iface, ip4, hop) && m != mac
    ensures Spares(OnReleaseOps(w, env, m), ip4)
    ensures OnHop(ApplyAll(OnReleaseOps(w, env, m), w), mac, iface, ip4, hop)
  {
    PersistSpares(Remove(w.hosts, m), env, ip4);
    ReleaseEffect(w, env, m);
    if m in w.hosts.vals {
      SparesConcat([Untrack(m), Withdraw(w.hosts.vals[m].ip4, env.deleteOk)], PersistOps(Remove(w.hosts, m), env), ip4);
    }
  }

  lemma EventSpares(w: World, e: Event, mac: string, iface: string, ip4: string, hop: In6)
    requires OnHop(w, mac, iface, ip4, hop) && Undisturbing(e, mac, iface, ip4) && ReadsHop(e, mac, iface, hop)
    ensures Spares(EventOps(w, e), ip4)
    ensures OnHop(ApplyAll(EventOps(w, e), w), mac, iface, ip4, hop)
  {
    match e
    case Line(env, text) =>
      match ParseRequest(text) {
        case Lease(i, m, a) => LeaseSpares(w, env, i, m, a, mac, iface, ip4, hop);
        case Release(m) => ReleaseSpares(w, env, m, mac, iface, ip4, hop);
        case Ignored =>
      }
    case Evaluate(env, m) =>
      EvaluateSpares(w, env, m, mac, iface, ip4, hop);
      EvaluateEffect(w, env, m);
    case External(ips) =>
      assert [Flush(ips)][1..] == [];
  }

  lemma {:induction false} RunSpares(w: World, items: seq<Item>, mac: string, iface: string, ip4: string, hop: In6)
    requires OnHop(w, mac, iface, ip4, hop)
    requires CalmFor(items, mac, iface, ip4, hop)
    ensures Spares(RunOps(w, items), ip4)
    ensures OnHop(Run(w, items), mac, iface, ip4, hop)
    decreases |items|
  {
    if items != [] {
      var ops := ItemOps(w, items[0]);
      EventSpares(w, items[0].e, mac, iface, ip4, hop);
      RunSpares(ApplyAll(ops, w), items[1..], mac, iface, ip4, hop);
      SparesConcat(ops, RunOps(ApplyAll(ops, w), items[1..]), ip4);
    }
  }

  /** A recorded hop that no reading contradicts keeps record and route, and no operation touches the address. */
  lemma HopIsSticky(w: World, items: seq<Item>, mac: string, iface: string, ip4: string, hop: In6)
    requires OnHop(w, mac, iface, ip4, hop) && CalmFor(items, mac, iface, ip4, hop)
    ensures Spares(RunOps(w, items), ip4)
    ensures OnHop(Run(w, items), mac, iface, ip4, hop)
    ensures RouteFor(Run(w, items), ip4) == RouteFor(w, ip4)
  {
    RunSpares(w, items, mac, iface, ip4, hop);
    RunIsItsOps(w, items);
    SparedRouteStays(RunOps(w, items), w, ip4);
  }

  /** Once on its derived GUA, a host keeps its record and its route for as long as that GUA stays usable. */
  lemma GuaIsSticky(w: World, items: seq<Item>, mac: string, iface: string, ip4: string, gua: In6)
    requires OnHop(w, mac, iface, ip4, gua)
    requires forall i :: 0 <= i < |items| ==>
               items[i].Do? && Undisturbing(items[i].e, mac, iface, ip4) && ReadsGua(items[i].e, mac, iface, gua)
    ensures Spares(RunOps(w, items), ip4)
    ensures OnHop(Run(w, items), mac, iface, ip4, gua)
    ensures RouteFor(Run(w, items), ip4) == RouteFor(w, ip4)
  {
    HopIsSticky(w, items, mac, iface, ip4, gua);
  }

  // ---- the other side of the shadow -----------------------------------------

  /**
   * The kernel refused the best hop of a host alone on its address: over every later run that finds
   * no better one, no operation touches the address, so the route stays as the refusal left it.
   */
  lemma RefusedRouteIsNotRetried(w: World, env: Env, mac: string, items: seq<Item>)
    requires WantsInstall(w, env, mac) && !env.installOk
    requires forall m :: m in w.hosts.vals && m != mac ==> w.hosts.vals[m].ip4 != w.hosts.vals[mac].ip4
    requires var (h, idx) := Evaluable(w, env, mac).value;
             CalmFor(items, mac, h.iface, h.ip4, BestNexthop(env.net, idx, mac).value)
    ensures var w', ip4 := Evaluated(w, env, mac), w.hosts.vals[mac].ip4;
            Spares(RunOps(w', items), ip4) && RouteFor(Run(w', items), ip4) == RouteFor(w, ip4)
  {
    var (h, idx) := Evaluable(w, env, mac).value;
    HopIsSticky(Evaluated(w, env, mac), items, mac, h.iface, h.ip4, BestNexthop(env.net, idx, mac).value);
  }

  /** A route that someone else flushes stays missing for as long as its hop stays the best one. */
  lemma FlushedRouteStaysMissing(w: World, ips: set<string>, mac: string, iface: string, ip4: string, hop: In6,
                                 items: seq<Item>)
    requires OnHop(w, mac, iface, ip4, hop) && ip4 in ips && CalmFor(items, mac, iface, ip4, hop)
    ensures RouteFor(Run(w, [Do(External(ips))] + items), ip4) == None
  {
    var w1 := Apply(Flush(ips), w);
    ApplyOne(Flush(ips), w);
    HopIsSticky(w1, items, mac, iface, ip4, hop);
    assert ([Do(External(ips))] + items)[1..] == items;
  }
}
