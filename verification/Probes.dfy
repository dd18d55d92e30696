/** Accounting of the one-shot GUA solicitations over whole runs, crashes and restarts included. */
module Probes {
  import opened Prelude
  import opened NextHop
  import opened StateFile
  import opened ReturnRoutes
  import opened CrashRuns
  import opened Effects

  // ---- reading a history ----------------------------------------------------

  /** The operation starts the probe timer of `mac`: a lease event or a restored row. */
  predicate Arms(op: Op, mac: string) {
    (op.Arm? && op.mac == mac) || (op.Reload? && op.row.mac == mac)
  }

  predicate Solicits(op: Op, mac: string) {
    op.Kick? && op.mac == mac
  }

  function ArmCount(history: seq<Op>, mac: string): nat {
    if history == [] then 0
    else ArmCount(history[..|history| - 1], mac) + if Arms(history[|history| - 1], mac) then 1 else 0
  }

  function SolicitCount(history: seq<Op>, mac: string): nat {
    if history == [] then 0
    else SolicitCount(history[..|history| - 1], mac) + if Solicits(history[|history| - 1], mac) then 1 else 0
  }

  /** When the timer of `mac` was last started. */
  function LastArmed(history: seq<Op>, mac: string): Option<int> {
    if history == [] then None
    else
      var last := history[|history| - 1];
      if Arms(last, mac) then Some(last.at) else LastArmed(history[..|history| - 1], mac)
  }

  /** Each solicitation is late enough, not on the GUA already, and paid for by an unused lease event or restore. */
  ghost predicate Lawful(history: seq<Op>) {
    forall i :: 0 <= i < |history| && history[i].Kick? ==>
      var k := history[i];
      && LastArmed(history[..i], k.mac).Some?
      && k.at >= LastArmed(history[..i], k.mac).value + 15
      && k.best != Some(k.gua)
      && SolicitCount(history[..i], k.mac) < ArmCount(history[..i], k.mac)
  }

  // ---- the invariant --------------------------------------------------------

  function Timer(w: World, mac: string): Option<int> {
    if mac in w.hosts.vals then w.hosts.vals[mac].probeAt else None
  }

  /** A running timer was set by the latest start, and accounts for one solicitation not yet sent. */
  ghost predicate Balanced(history: seq<Op>, w: World, mac: string) {
    && SolicitCount(history, mac) <= ArmCount(history, mac)
    && (Timer(w, mac).Some? ==>
          && LastArmed(history, mac) == Some(Timer(w, mac).value - GUA_PROBE_DELAY)
          && SolicitCount(history, mac) < ArmCount(history, mac))
  }

  /** A solicitation is sent only when its timer has run out and the best hop is not the GUA. */
  ghost predicate Allowed(op: Op, w: World) {
    && (op.Kick? ==>
          Timer(w, op.mac).Some? && op.at >= Timer(w, op.mac).value && op.best != Some(op.gua))
    && (op.Track? ==> op.host.probeAt == None)
    && (op.Arm? ==> op.mac in w.hosts.vals)
  }

  ghost predicate AllAllowed(ops: seq<Op>, w: World) {
    ops != [] ==> Allowed(ops[0], w) && AllAllowed(ops[1..], Apply(ops[0], w))
  }

  /** How one more operation moves the counts. */
  lemma CountsStep(history: seq<Op>, op: Op, mac: string)
    ensures ArmCount(history + [op], mac) == ArmCount(history, mac) + if Arms(op, mac) then 1 else 0
    ensures SolicitCount(history + [op], mac) == SolicitCount(history, mac) + if Solicits(op, mac) then 1 else 0
    ensures LastArmed(history + [op], mac) == if Arms(op, mac) then Some(op.at) else LastArmed(history, mac)
  {
  }

  /** Only a start sets a timer, and a solicitation clears it. */
  lemma TimerStep(op: Op, w: World, mac: string)
    requires Allowed(op, w)
    ensures Solicits(op, mac) ==> Timer(w, mac).Some? && Timer(Apply(op, w), mac) == None
    ensures Arms(op, mac) ==> Timer(Apply(op, w), mac) == Some(op.at + GUA_PROBE_DELAY)
    ensures !Arms(op, mac) ==> Timer(Apply(op, w), mac) in {None, Timer(w, mac)}
  {
  }

  lemma BalancedStep(history: seq<Op>, op: Op, w: World, mac: string)
    requires Balanced(history, w, mac) && Allowed(op, w)
    ensures Balanced(history + [op], Apply(op, w), mac)
  {
    CountsStep(history, op, mac);
    TimerStep(op, w, mac);
  }

  lemma LawfulStep(history: seq<Op>, op: Op, w: World)
    requires Lawful(history) && Allowed(op, w)
    requires forall mac :: Balanced(history, w, mac)
    ensures Lawful(history + [op])
  {
    var next := history + [op];
    forall i | 0 <= i < |next| && next[i].Kick?
      ensures var k := next[i];
              && LastArmed(next[..i], k.mac).Some?
              && k.at >= LastArmed(next[..i], k.mac).value + 15
              && k.best != Some(k.gua)
              && SolicitCount(next[..i], k.mac) < ArmCount(next[..i], k.mac)
    {
      if i < |history| {
        assert next[..i] == history[..i] && next[i] == history[i];
      } else {
        assert next[..i] == history;
        assert Balanced(history, w, op.mac);
      }
    }
  }

  lemma {:induction false} HistoryLawful(history: seq<Op>, ops: seq<Op>, w: World)
    requires Lawful(history) && AllAllowed(ops, w)
    requires forall mac :: Balanced(history, w, mac)
    ensures Lawful(history + ops)
    ensures forall mac :: Balanced(history + ops, ApplyAll(ops, w), mac)
    decreases |ops|
  {
    if ops == [] {
      assert history + ops == history;
    } else {
      forall mac ensures Balanced(history + [ops[0]], Apply(ops[0], w), mac) {
        BalancedStep(history, ops[0], w, mac);
      }
      LawfulStep(history, ops[0], w);
      HistoryLawful(history + [ops[0]], ops[1..], Apply(ops[0], w));
      assert history + [ops[0]] + ops[1..] == history + ops;
    }
  }

  // ---- every operation of a run is allowed ----------------------------------

  lemma {:induction false} AllowedConcat(a: seq<Op>, b: seq<Op>, w: World)
    requires AllAllowed(a, w) && AllAllowed(b, ApplyAll(a, w))
    ensures AllAllowed(a + b, w)
  {
    if a == [] {
      assert a + b == b;
    } else {
      assert (a + b)[0] == a[0] && (a + b)[1..] == a[1..] + b;
      AllowedConcat(a[1..], b, Apply(a[0], w));
    }
  }

  lemma {:induction false} AllowedPrefix(ops: seq<Op>, k: nat, w: World)
    requires AllAllowed(ops, w) && k <= |ops|
    ensures AllAllowed(ops[..k], w)
  {
    if k != 0 {
      assert ops[..k][0] == ops[0] && ops[..k][1..] == ops[1..][..k - 1];
      AllowedPrefix(ops[1..], k - 1, Apply(ops[0], w));
    }
  }

  /** Operations that neither solicit nor start over a host's timer are always allowed. */
  lemma {:induction false} NeutralAllowed(ops: seq<Op>, w: World)
    requires forall i :: 0 <= i < |ops| ==> !ops[i].Kick? && !ops[i].Track? && !ops[i].Arm?
    ensures AllAllowed(ops, w)
    decreases |ops|
  {
    if ops != [] {
      NeutralAllowed(ops[1..], Apply(ops[0], w));
    }
  }

  lemma EvaluateAllowed(w: World, env: Env, mac: string)
    ensures AllAllowed(EvaluateOps(w, env, mac), w)
  {
    var t := Evaluable(w, env, mac);
    if t.Some? {
      var (h, idx) := t.value;
      var best, gua := BestNexthop(env.net, idx, mac), DerivedGua(env.net, idx, mac);
      var probe, route := ProbeOps(h, mac, best, gua, env.now), RouteOps(h, mac, idx, best, env.installOk);
      assert |probe| == 1 ==> probe[1..] == [];
      assert AllAllowed(probe, w);
      NeutralAllowed(route, ApplyAll(probe, w));
      AllowedConcat(probe, route, w);
    }
  }

  lemma PersistAllowed(w: World, hosts: Dict<string, Host>, env: Env)
    ensures AllAllowed(PersistOps(hosts, env), w)
  {
    PersistShape(hosts, env);
    NeutralAllowed(PersistOps(hosts, env), w);
  }

  lemma LeaseTableAllowed(w: World, env: Env, iface: string, mac: string, ip4: string)
    ensures AllAllowed(LeaseTableOps(w, env, iface, mac, ip4), w)
  {
    var ops := LeaseTableOps(w, env, iface, mac, ip4);
    var h := Host(iface, ip4, None, None);
    if LeaseChanged(w, iface, mac, ip4) {
      assert ops[1..] == [Track(mac, h), Arm(mac, env.now)];
      assert ops[1..][1..] == [Arm(mac, env.now)] && ops[1..][1..][1..] == [];
      assert AllAllowed(ops[1..][1..], Apply(Track(mac, h), Apply(ops[0], w)));
      assert AllAllowed(ops[1..], Apply(ops[0], w));
    } else if mac in w.hosts.vals {
      assert ops == [Arm(mac, env.now)] && ops[1..] == [];
    } else {
      assert ops[1..] == [Arm(mac, env.now)] && ops[1..][1..] == [];
      assert AllAllowed(ops[1..], Apply(ops[0], w));
    }
  }

  lemma LeaseAllowed(w: World, env: Env, iface: string, mac: string, ip4: string)
    ensures AllAllowed(OnLeaseOps(w, env, iface, mac, ip4), w)
  {
    var table := LeaseTableOps(w, env, iface, mac, ip4);
    var w1 := ApplyAll(table, w);
    var persist := PersistOps(w1.hosts, env);
    var w2 := ApplyAll(persist, w1);
    LeaseTableAllowed(w, env, iface, mac, ip4);
    PersistAllowed(w1, w1.hosts, env);
    AllowedConcat(table, persist, w);
    PersistEffect(w1, w1.hosts, env);
    EvaluateReadsTables(w1, w2, env, mac);
    EvaluateAllowed(w2, env, mac);
    ApplyAllConcat(table, persist, w);
    AllowedConcat(table + persist, EvaluateOps(w1, env, mac), w);
  }

  lemma EventAllowed(w: World, e: Event)
    ensures AllAllowed(EventOps(w, e), w)
  {
    match e
    case Line(env, text) =>
      match ParseRequest(text) {
        case Lease(iface, mac, ip4) => LeaseAllowed(w, env, iface, mac, ip4);
        case Release(mac) =>
          PersistShape(Remove(w.hosts, mac), env);
          NeutralAllowed(OnReleaseOps(w, env, mac), w);
        case Ignored =>
      }
    case Evaluate(env, mac) => EvaluateAllowed(w, env, mac);
    case External(ips) => NeutralAllowed([Flush(ips)], w);
  }

  lemma {:induction false} RestoreIsReloads(rows: seq<Row>, live: Live, now: int)
    ensures forall i :: 0 <= i < |RestoreOps(rows, live, now)| ==> RestoreOps(rows, live, now)[i].Reload?
  {
    if rows != [] {
      RestoreIsReloads(rows[1..], live, now);
    }
  }

  lemma ItemAllowed(w: World, item: Item)
    ensures AllAllowed(ItemOps(w, item), w)
  {
    EventAllowed(w, item.e);
    if item.Die? {
      var cut := CutOps(w, item.e, item.k);
      assert cut == EventOps(w, item.e)[..|cut|];
      AllowedPrefix(EventOps(w, item.e), |cut|, w);
      var w1 := ApplyAll(cut, w);
      RestoreIsReloads(StateRows(w1.state), LiveLeases(item.leaseFile), item.now);
      NeutralAllowed(BootOps(w1, item.now, item.leaseFile), w1);
      AllowedConcat(cut, BootOps(w1, item.now, item.leaseFile), w);
    }
  }

  lemma {:induction false} RunAllowed(w: World, items: seq<Item>)
    ensures AllAllowed(RunOps(w, items), w)
    decreases |items|
  {
    if items != [] {
      var ops := ItemOps(w, items[0]);
      ItemAllowed(w, items[0]);
      RunAllowed(ApplyAll(ops, w), items[1..]);
      AllowedConcat(ops, RunOps(ApplyAll(ops, w), items[1..]), w);
    }
  }

  // ---- what a run is entitled to --------------------------------------------

  function RowCount(rows: seq<Row>, mac: string): nat {
    if rows == [] then 0 else RowCount(rows[1..], mac) + if rows[0].mac == mac then 1 else 0
  }

  predicate IsLeaseOf(e: Event, mac: string) {
    e.Line? && ParseRequest(e.text).Lease? && ParseRequest(e.text).mac == mac
  }

  /** Lease events of `mac` plus its restored rows. */
  function Entitlement(w: World, items: seq<Item>, mac: string): nat
    decreases |items|
  {
    if items == [] then 0
    else
      (if IsLeaseOf(items[0].e, mac) then 1 else 0)
      + (if items[0].Die? then
           RowCount(KeptRows(StateRows(ApplyAll(CutOps(w, items[0].e, items[0].k), w).state),
                             LiveLeases(items[0].leaseFile)), mac)
         else 0)
      + Entitlement(ApplyAll(ItemOps(w, items[0]), w), items[1..], mac)
  }

  lemma {:induction false} ArmCountConcat(a: seq<Op>, b: seq<Op>, mac: string)
    ensures ArmCount(a + b, mac) == ArmCount(a, mac) + ArmCount(b, mac)
  {
    if b == [] {
      assert a + b == a;
    } else {
      assert (a + b)[..|a + b| - 1] == a + b[..|b| - 1];
      ArmCountConcat(a, b[..|b| - 1], mac);
    }
  }

  lemma {:induction false} NoArms(ops: seq<Op>, mac: string)
    requires forall i :: 0 <= i < |ops| ==> !Arms(ops[i], mac)
    ensures ArmCount(ops, mac) == 0
  {
    if ops != [] {
      NoArms(ops[..|ops| - 1], mac);
    }
  }

  lemma {:induction false} RestoreArms(rows: seq<Row>, live: Live, now: int, mac: string)
    ensures ArmCount(RestoreOps(rows, live, now), mac) == RowCount(KeptRows(rows, live), mac)
  {
    if rows != [] {
      RestoreArms(rows[1..], live, now, mac);
      if Kept(rows[0], live) {
        ArmCountConcat([Reload(rows[0], now)], RestoreOps(rows[1..], live, now), mac);
        assert [Reload(rows[0], now)][..0] == [];
        assert KeptRows(rows, live)[1..] == KeptRows(rows[1..], live);
      } else {
        assert RestoreOps(rows, live, now) == RestoreOps(rows[1..], live, now);
      }
    }
  }

  lemma EvaluateArmsNothing(w: World, env: Env, m: string, mac: string)
    ensures ArmCount(EvaluateOps(w, env, m), mac) == 0
  {
    NoArms(EvaluateOps(w, env, m), mac);
  }

  lemma LeaseTableArmsOnce(w: World, env: Env, iface: string, m: string, ip4: string, mac: string)
    ensures ArmCount(LeaseTableOps(w, env, iface, m, ip4), mac) == if m == mac then 1 else 0
  {
    var ops := LeaseTableOps(w, env, iface, m, ip4);
    NoArms(ops[..|ops| - 1], mac);
  }

  lemma LeaseArmsOnce(w: World, env: Env, iface: string, m: string, ip4: string, mac: string)
    ensures ArmCount(OnLeaseOps(w, env, iface, m, ip4), mac) == if m == mac then 1 else 0
  {
    var table := LeaseTableOps(w, env, iface, m, ip4);
    var w1 := ApplyAll(table, w);
    var persist := PersistOps(w1.hosts, env);
    LeaseTableArmsOnce(w, env, iface, m, ip4, mac);
    PersistShape(w1.hosts, env);
    NoArms(persist, mac);
    ArmCountConcat(table, persist, mac);
    EvaluateArmsNothing(w1, env, m, mac);
    ArmCountConcat(table + persist, EvaluateOps(w1, env, m), mac);
  }

  lemma EventArms(w: World, e: Event, mac: string)
    ensures ArmCount(EventOps(w, e), mac) == if IsLeaseOf(e, mac) then 1 else 0
  {
    match e
    case Line(env, text) =>
      match ParseRequest(text) {
        case Lease(iface, m, ip4) => LeaseArmsOnce(w, env, iface, m, ip4, mac);
        case Release(m) =>
          PersistShape(Remove(w.hosts, m), env);
          NoArms(OnReleaseOps(w, env, m), mac);
        case Ignored =>
      }
    case Evaluate(env, m) => EvaluateArmsNothing(w, env, m, mac);
    case External(ips) => NoArms([Flush(ips)], mac);
  }

  lemma BootArms(w: World, now: int, leaseFile: Option<string>, mac: string)
    ensures ArmCount(BootOps(w, now, leaseFile), mac) ==
            RowCount(KeptRows(StateRows(w.state), LiveLeases(leaseFile)), mac)
  {
    var restore := RestoreOps(StateRows(w.state), LiveLeases(leaseFile), now);
    RestoreArms(StateRows(w.state), LiveLeases(leaseFile), now, mac);
    ArmCountConcat([Forget], restore, mac);
    NoArms([Forget], mac);
  }

  lemma PrefixArms(ops: seq<Op>, k: nat, mac: string)
    requires k <= |ops|
    ensures ArmCount(ops[..k], mac) <= ArmCount(ops, mac)
  {
    assert ops[..k] + ops[k..] == ops;
    ArmCountConcat(ops[..k], ops[k..], mac);
  }

  lemma CutArms(w: World, e: Event, k: nat, mac: string)
    ensures ArmCount(CutOps(w, e, k), mac) <= if IsLeaseOf(e, mac) then 1 else 0
  {
    EventArms(w, e, mac);
    PrefixArms(EventOps(w, e), |CutOps(w, e, k)|, mac);
  }

  lemma ItemArms(w: World, item: Item, mac: string)
    ensures ArmCount(ItemOps(w, item), mac) <=
            (if IsLeaseOf(item.e, mac) then 1 else 0)
            + (if item.Die? then RowCount(KeptRows(StateRows(ApplyAll(CutOps(w, item.e, item.k), w).state),
                                                   LiveLeases(item.leaseFile)), mac)
               else 0)
  {
    match item
    case Do(e) => EventArms(w, e, mac);
    case Die(e, k, now, leaseFile) =>
      var cut := CutOps(w, e, k);
      CutArms(w, e, k, mac);
      BootArms(ApplyAll(cut, w), now, leaseFile, mac);
      ArmCountConcat(cut, BootOps(ApplyAll(cut, w), now, leaseFile), mac);
  }

  lemma {:induction false} RunArms(w: World, items: seq<Item>, mac: string)
    ensures ArmCount(RunOps(w, items), mac) <= Entitlement(w, items, mac)
    decreases |items|
  {
    if items != [] {
      var ops := ItemOps(w, items[0]);
      ItemArms(w, items[0], mac);
      RunArms(ApplyAll(ops, w), items[1..], mac);
      ArmCountConcat(ops, RunOps(ApplyAll(ops, w), items[1..]), mac);
    }
  }

  /**
   * Over every run of a process that starts with an empty table, whatever kernel and disk hold:
   * solicitations of a MAC never exceed its lease events plus restored rows, each comes at least
   * fifteen seconds after the latest of those, and none is sent while the best hop is the GUA.
   */
  lemma ProbeAccounting(w: World, items: seq<Item>, mac: string)
    requires w.hosts.vals == map[]
    ensures Lawful(RunOps(w, items))
    ensures SolicitCount(RunOps(w, items), mac) <= Entitlement(w, items, mac)
  {
    var ops := RunOps(w, items);
    RunAllowed(w, items);
    HistoryLawful([], ops, w);
    assert [] + ops == ops;
    assert Balanced(ops, ApplyAll(ops, w), mac);
    RunArms(w, items, mac);
  }
}
