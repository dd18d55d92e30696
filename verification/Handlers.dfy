/** What each handler of the return-route daemon does, in terms of its input and the kernel reading. */
module Handlers {
  import opened Prelude
  import opened Inet
  import opened Text
  import opened NextHop
  import opened ReturnRoutes
  import opened Effects
  import opened Probes

  // ---- lines ----------------------------------------------------------------

  /** Action, interface, MAC in any case, address; whatever follows is ignored, and so is any other action. */
  lemma LineMeans(action: string, iface: string, mac: string, ip4: string, rest: string)
    requires Token(action) && Token(iface) && Token(mac) && Token(ip4) && (rest == "" || IsSpace(rest[0]))
    ensures ParseRequest(action + " " + (iface + " " + (mac + " " + (ip4 + rest)))) ==
            if action == "add" || action == "old" then Lease(iface, Lower(mac), ip4)
            else if action == "del" then Release(Lower(mac))
            else Ignored
  {
    WordsAfterToken(ip4, rest);
    WordsBeforeSpace(mac, ip4 + rest);
    WordsBeforeSpace(iface, mac + " " + (ip4 + rest));
    WordsBeforeSpace(action, iface + " " + (mac + " " + (ip4 + rest)));
  }

  lemma ShortLineIsIgnored(line: string)
    ensures ParseRequest(line).Ignored? <==>
            |Words(line)| < 4 || (Words(line)[0] != "add" && Words(line)[0] != "old" && Words(line)[0] != "del")
  {
  }

  // ---- evaluation -----------------------------------------------------------

  /** The interface is there, and on this reading a GUA can be derived for the MAC. */
  predicate Derives(net: Net, iface: string, mac: string) {
    var idx := Index(net, iface);
    idx.Some? && DerivedGua(net, idx.value, mac).Some?
  }

  /** On top of that the best hop is that GUA. */
  predicate BestIsGua(net: Net, iface: string, mac: string) {
    && Derives(net, iface, mac)
    && var idx := Index(net, iface).value; BestNexthop(net, idx, mac) == DerivedGua(net, idx, mac)
  }

  ghost predicate CanDerive(w: World, env: Env, mac: string) {
    mac in w.hosts.vals && Derives(env.net, w.hosts.vals[mac].iface, mac)
  }

  ghost predicate OnGua(w: World, env: Env, mac: string) {
    mac in w.hosts.vals && BestIsGua(env.net, w.hosts.vals[mac].iface, mac)
  }

  /** The host could be on its GUA but is not, and its timer has run out. */
  ghost predicate Due(w: World, env: Env, mac: string) {
    && CanDerive(w, env, mac) && !OnGua(w, env, mac)
    && w.hosts.vals[mac].probeAt.Some? && env.now >= w.hosts.vals[mac].probeAt.value
  }

  lemma {:induction false} SolicitCountConcat(a: seq<Op>, b: seq<Op>, mac: string)
    ensures SolicitCount(a + b, mac) == SolicitCount(a, mac) + SolicitCount(b, mac)
  {
    if b == [] {
      assert a + b == a;
    } else {
      assert (a + b)[..|a + b| - 1] == a + b[..|b| - 1];
      SolicitCountConcat(a, b[..|b| - 1], mac);
    }
  }

  lemma {:induction false} NoKicks(ops: seq<Op>, mac: string)
    requires forall i :: 0 <= i < |ops| ==> !ops[i].Kick?
    ensures SolicitCount(ops, mac) == 0
  {
    if ops != [] {
      NoKicks(ops[..|ops| - 1], mac);
    }
  }

  lemma OneKick(op: Op, mac: string)
    ensures SolicitCount([op], mac) == if Solicits(op, mac) then 1 else 0
  {
    assert [op][..0] == [];
  }

  /**
   * An evaluation solicits once when the timer has run out and the best hop is not the derived GUA,
   * and otherwise not at all; what it solicits is the derived GUA.
   */
  lemma EvaluationSolicitsIff(w: World, env: Env, mac: string)
    ensures SolicitCount(EvaluateOps(w, env, mac), mac) == if Due(w, env, mac) then 1 else 0
    ensures forall op :: op in EvaluateOps(w, env, mac) && op.Kick? ==>
              var idx := Index(env.net, w.hosts.vals[mac].iface).value;
              Due(w, env, mac) &&
              op == Kick(mac, DerivedGua(env.net, idx, mac).value, env.now, BestNexthop(env.net, idx, mac))
  {
    var t := Evaluable(w, env, mac);
    if t.Some? {
      var (h, idx) := t.value;
      var best, gua := BestNexthop(env.net, idx, mac), DerivedGua(env.net, idx, mac);
      var probe, route := ProbeOps(h, mac, best, gua, env.now), RouteOps(h, mac, idx, best, env.installOk);
      SolicitCountConcat(probe, route, mac);
      NoKicks(route, mac);
      if probe != [] {
        assert probe == [probe[0]];
        OneKick(probe[0], mac);
      }
    }
  }

  /** The timer stops when the host is on its GUA or has just been solicited; all other timers go on. */
  lemma EvaluationTimers(w: World, env: Env, mac: string, m: string)
    ensures Timer(ApplyAll(EvaluateOps(w, env, mac), w), m) ==
            if m == mac && (OnGua(w, env, mac) || Due(w, env, mac)) then None else Timer(w, m)
  {
    EvaluateEffect(w, env, mac);
  }

  /** The hop that a reading calls for: none while the interface is absent or nothing is usable. */
  function Wanted(net: Net, iface: string, mac: string): Option<In6> {
    var idx := Index(net, iface);
    if idx.None? then None else BestNexthop(net, idx.value, mac)
  }

  /**
   * The kernel is called exactly when the wanted hop differs from the recorded one: for the host's
   * address, through its interface, to that hop. The hop is recorded either way, and nothing else
   * of any host but a timer changes.
   */
  lemma EvaluationRoutesIff(w: World, env: Env, mac: string)
    ensures (exists op :: op in EvaluateOps(w, env, mac) && op.Install?) <==>
            mac in w.hosts.vals && var best := Wanted(env.net, w.hosts.vals[mac].iface, mac);
                                   best.Some? && best != w.hosts.vals[mac].nh
    ensures forall op :: op in EvaluateOps(w, env, mac) && op.Install? ==>
              var h := w.hosts.vals[mac];
              op == Install(h.ip4, Route(Index(env.net, h.iface).value, Wanted(env.net, h.iface, mac).value),
                            env.installOk)
    ensures var w' := ApplyAll(EvaluateOps(w, env, mac), w);
            && w'.hosts.vals.Keys == w.hosts.vals.Keys
            && forall m :: m in w.hosts.vals ==>
                 var h, h', best := w.hosts.vals[m], w'.hosts.vals[m], Wanted(env.net, w.hosts.vals[m].iface, m);
                 h'.iface == h.iface && h'.ip4 == h.ip4 && h'.nh == if m == mac && best.Some? then best else h.nh
  {
    EvaluateEffect(w, env, mac);
    var t := Evaluable(w, env, mac);
    if t.Some? {
      var (h, idx) := t.value;
      var best, gua := BestNexthop(env.net, idx, mac), DerivedGua(env.net, idx, mac);
      InstallIsLast(ProbeOps(h, mac, best, gua, env.now), RouteOps(h, mac, idx, best, env.installOk));
    }
  }

  lemma InstallIsLast(probe: seq<Op>, route: seq<Op>)
    requires forall i :: 0 <= i < |probe| ==> !probe[i].Install?
    ensures forall op: Op :: op.Install? ==> (op in probe + route <==> op in route)
    ensures route != [] && route[0].Install? ==> route[0] in probe + route
  {
  }

  /** An untracked host, or one whose interface is gone, is left alone. */
  lemma NothingToEvaluate(w: World, env: Env, mac: string)
    requires mac !in w.hosts.vals || Index(env.net, w.hosts.vals[mac].iface).None?
    ensures EvaluateOps(w, env, mac) == []
  {
  }

  // ---- leases ---------------------------------------------------------------

  /** The lease repeats what the table has. */
  predicate Renewal(w: World, iface: string, mac: string, ip4: string) {
    mac in w.hosts.vals && w.hosts.vals[mac].iface == iface && w.hosts.vals[mac].ip4 == ip4
  }

  lemma EvaluatedRecord(w: World, env: Env, mac: string)
    requires mac in w.hosts.vals
    ensures var hosts, h := Evaluated(w, env, mac).hosts.vals, w.hosts.vals[mac];
            var best := Wanted(env.net, h.iface, mac);
            && hosts.Keys == w.hosts.vals.Keys && (forall m :: m in hosts && m != mac ==> hosts[m] == w.hosts.vals[m])
            && hosts[mac] == Host(h.iface, h.ip4, if best.Some? then best else h.nh,
                                  if OnGua(w, env, mac) || Due(w, env, mac) then None else h.probeAt)
  {
  }

  lemma LeaseTableRecord(w: World, env: Env, iface: string, mac: string, ip4: string)
    ensures var hosts := LeaseTable(w, env, iface, mac, ip4).hosts.vals;
            && hosts.Keys == w.hosts.vals.Keys + {mac}
            && (forall m :: m in hosts && m != mac ==> hosts[m] == w.hosts.vals[m])
            && hosts[mac] == Host(iface, ip4, if Renewal(w, iface, mac, ip4) then w.hosts.vals[mac].nh else None,
                                  Some(env.now + 15))
  {
  }

  /**
   * A lease leaves the host recorded on its interface and address and every other host as it was. A
   * renewal keeps the hop unless the reading has a better one; a changed lease takes the old route
   * out and starts without a hop. The timer ends fifteen seconds later, unless the host is on its GUA.
   */
  lemma LeaseIsRecorded(w: World, env: Env, iface: string, mac: string, ip4: string)
    ensures var w' := ApplyAll(OnLeaseOps(w, env, iface, mac, ip4), w);
            var best := Wanted(env.net, iface, mac);
            && w'.hosts.vals.Keys == w.hosts.vals.Keys + {mac}
            && (forall m :: m in w.hosts.vals && m != mac ==> w'.hosts.vals[m] == w.hosts.vals[m])
            && w'.hosts.vals[mac].iface == iface && w'.hosts.vals[mac].ip4 == ip4
            && w'.hosts.vals[mac].nh == (if best.Some? then best
                                         else if Renewal(w, iface, mac, ip4) then w.hosts.vals[mac].nh else None)
            && w'.hosts.vals[mac].probeAt == (if BestIsGua(env.net, iface, mac) then None else Some(env.now + 15))
  {
    var w1 := LeaseTable(w, env, iface, mac, ip4);
    LeaseTableRecord(w, env, iface, mac, ip4);
    EvaluatedRecord(w1, env, mac);
    LeaseEffect(w, env, iface, mac, ip4);
  }

  lemma LeaseMovesRoute(w: World, env: Env, iface: string, mac: string, ip4: string)
    ensures var w' := ApplyAll(OnLeaseOps(w, env, iface, mac, ip4), w);
            && (mac in w.hosts.vals && w.hosts.vals[mac].ip4 != ip4 && env.deleteOk ==>
                  w.hosts.vals[mac].ip4 !in w'.routes)
            && (Renewal(w, iface, mac, ip4) && Wanted(env.net, iface, mac) in {None, w.hosts.vals[mac].nh} ==>
                  w'.routes == w.routes)
            && (!Renewal(w, iface, mac, ip4) && mac in w.hosts.vals && env.deleteOk &&
                (Wanted(env.net, iface, mac) == None || !env.installOk) ==>
                  w'.routes == w.routes - {w.hosts.vals[mac].ip4})
  {
    LeaseEffect(w, env, iface, mac, ip4);
  }

  /** A release forgets the host and takes its route out; for an untracked MAC nothing happens. */
  lemma ReleaseForgets(w: World, env: Env, mac: string)
    ensures var w' := ApplyAll(OnReleaseOps(w, env, mac), w);
            && w'.hosts.vals == w.hosts.vals - {mac}
            && w'.routes == (if mac in w.hosts.vals && env.deleteOk then w.routes - {w.hosts.vals[mac].ip4}
                             else w.routes)
    ensures mac !in w.hosts.vals ==> OnReleaseOps(w, env, mac) == []
  {
    ReleaseEffect(w, env, mac);
    if mac !in w.hosts.vals {
      assert w.hosts.vals - {mac} == w.hosts.vals;
    }
  }

  // ---- one solicitation per lease -------------------------------------------

  lemma LeaseDoesNotSolicit(w: World, env: Env, iface: string, mac: string, ip4: string)
    ensures SolicitCount(OnLeaseOps(w, env, iface, mac, ip4), mac) == 0
  {
    var table := LeaseTableOps(w, env, iface, mac, ip4);
    var w1 := ApplyAll(table, w);
    var persist := PersistOps(w1.hosts, env);
    LeaseTableEffect(w, env, iface, mac, ip4);
    PersistShape(w1.hosts, env);
    NoKicks(table, mac);
    NoKicks(persist, mac);
    EvaluationSolicitsIff(w1, env, mac);
    SolicitCountConcat(table, persist, mac);
    SolicitCountConcat(table + persist, EvaluateOps(w1, env, mac), mac);
  }

  lemma RunOpsOne(w: World, item: Item)
    ensures RunOps(w, [item]) == ItemOps(w, item)
  {
    assert [item][1..] == [];
    assert ItemOps(w, item) + [] == ItemOps(w, item);
  }

  lemma RunOpsTwo(w: World, a: Item, b: Item)
    ensures RunOps(w, [a, b]) == ItemOps(w, a) + ItemOps(ApplyAll(ItemOps(w, a), w), b)
  {
    RunOpsOne(ApplyAll(ItemOps(w, a), w), b);
    assert [a, b][1..] == [b];
  }

  /**
   * A new host that is not on its GUA when it gets its lease, and still is not fifteen seconds or
   * more later, has been solicited once.
   */
  lemma SettledHostIsSolicited(w: World, lease: Env, text: string, iface: string, mac: string, ip4: string, later: Env)
    requires mac !in w.hosts.vals && ParseRequest(text) == Lease(iface, mac, ip4)
    requires !BestIsGua(lease.net, iface, mac) && Derives(later.net, iface, mac) && !BestIsGua(later.net, iface, mac)
    requires later.now >= lease.now + 15
    ensures SolicitCount(RunOps(w, [Do(Line(lease, text)), Do(Evaluate(later, mac))]), mac) == 1
  {
    var ops := OnLeaseOps(w, lease, iface, mac, ip4);
    var w1 := ApplyAll(ops, w);
    LeaseIsRecorded(w, lease, iface, mac, ip4);
    LeaseDoesNotSolicit(w, lease, iface, mac, ip4);
    EvaluationSolicitsIff(w1, later, mac);
    RunOpsTwo(w, Do(Line(lease, text)), Do(Evaluate(later, mac)));
    SolicitCountConcat(ops, EvaluateOps(w1, later, mac), mac);
  }

  lemma {:induction false} SweepsEntitleNothing(w: World, items: seq<Item>, mac: string)
    requires forall i :: 0 <= i < |items| ==> items[i].Do? && items[i].e.Evaluate?
    ensures Entitlement(w, items, mac) == 0
    decreases |items|
  {
    if items != [] {
      SweepsEntitleNothing(ApplyAll(ItemOps(w, items[0]), w), items[1..], mac);
    }
  }

  lemma RunSolicitsStep(w: World, item: Item, rest: seq<Item>, mac: string)
    ensures SolicitCount(RunOps(w, [item] + rest), mac) ==
            SolicitCount(ItemOps(w, item), mac) + SolicitCount(RunOps(ApplyAll(ItemOps(w, item), w), rest), mac)
  {
    assert ([item] + rest)[1..] == rest;
    SolicitCountConcat(ItemOps(w, item), RunOps(ApplyAll(ItemOps(w, item), w), rest), mac);
  }

  lemma {:induction false} LongerRunsSolicitMore(w: World, a: seq<Item>, b: seq<Item>, mac: string)
    ensures SolicitCount(RunOps(w, a + b), mac) >= SolicitCount(RunOps(w, a), mac)
    decreases |a|
  {
    if a != [] {
      var first, rest := a[0], a[1..];
      LongerRunsSolicitMore(ApplyAll(ItemOps(w, first), w), rest, b, mac);
      RunSolicitsStep(w, first, rest, mac);
      RunSolicitsStep(w, first, rest + b, mac);
      Regroup([first], rest, b);
      assert a == [first] + rest;
    }
  }

  /** At least one solicitation so far and at most one entitlement in all makes exactly one. */
  lemma OnceIsOnce(w: World, a: seq<Item>, b: seq<Item>, mac: string)
    requires w.hosts.vals == map[] && SolicitCount(RunOps(w, a), mac) == 1 && Entitlement(w, a + b, mac) <= 1
    ensures SolicitCount(RunOps(w, a + b), mac) == 1
  {
    LongerRunsSolicitMore(w, a, b, mac);
    ProbeAccounting(w, a + b, mac);
  }

  lemma OneEntitlement(w: World, first: Item, rest: seq<Item>, mac: string)
    requires first.Do? && forall i :: 0 <= i < |rest| ==> rest[i].Do? && rest[i].e.Evaluate?
    ensures Entitlement(w, [first] + rest, mac) <= 1
  {
    assert ([first] + rest)[1..] == rest;
    SweepsEntitleNothing(ApplyAll(ItemOps(w, first), w), rest, mac);
  }

  lemma SweepsAddNothing(w: World, first: Item, second: Item, more: seq<Item>, mac: string)
    requires w.hosts.vals == map[] && first.Do? && second.Do? && second.e.Evaluate?
    requires forall i :: 0 <= i < |more| ==> more[i].Do? && more[i].e.Evaluate?
    requires SolicitCount(RunOps(w, [first, second]), mac) == 1
    ensures SolicitCount(RunOps(w, [first, second] + more), mac) == 1
  {
    OneEntitlement(w, first, [second] + more, mac);
    assert [first, second] + more == [first] + ([second] + more);
    OnceIsOnce(w, [first, second], more, mac);
  }

  /** And on a fresh table it is never solicited again, however many evaluations follow. */
  lemma SolicitedExactlyOnce(w: World, lease: Env, text: string, iface: string, mac: string, ip4: string, later: Env,
                             more: seq<Item>)
    requires w.hosts.vals == map[] && ParseRequest(text) == Lease(iface, mac, ip4)
    requires !BestIsGua(lease.net, iface, mac) && Derives(later.net, iface, mac) && !BestIsGua(later.net, iface, mac)
    requires later.now >= lease.now + 15
    requires forall i :: 0 <= i < |more| ==> more[i].Do? && more[i].e.Evaluate?
    ensures SolicitCount(RunOps(w, [Do(Line(lease, text)), Do(Evaluate(later, mac))] + more), mac) == 1
  {
    SettledHostIsSolicited(w, lease, text, iface, mac, ip4, later);
    SweepsAddNothing(w, Do(Line(lease, text)), Do(Evaluate(later, mac)), more, mac);
  }
}
