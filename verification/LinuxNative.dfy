/**
 * The Linux daemon in native mode: one managed interface, the kernel's IPv4 table, and the route
 * with an IPv6 next hop that the daemon keeps in step with the IPv6 default routers.
 */
module LinuxNative {
  import opened Prelude
  import opened Inet
  import opened Selection

  const RT_PROTO := 199

  datatype Gateway = NoGateway | V4(addr: nat) | V6(via: In6)

  /** An IPv4 route in the main table. */
  datatype Route4 = Route4(dst: nat, dstLen: nat, oif: nat, metric: nat, proto: nat, gw: Gateway)

  predicate IsDefault(r: Route4) {
    r.dstLen == 0
  }

  // ---- the kernel -----------------------------------------------------------

  /** `replace`: a default route with the same metric gives way. */
  function Replace(table: set<Route4>, r: Route4): set<Route4> {
    (set x | x in table && !(IsDefault(x) && x.metric == r.metric)) + {r}
  }

  /** `del` of the default with this interface, metric and protocol. */
  function Delete(table: set<Route4>, oif: nat, metric: nat): set<Route4> {
    set x | x in table && !(IsDefault(x) && x.oif == oif && x.metric == metric && x.proto == RT_PROTO)
  }

  // ---- configuration, world and shadow --------------------------------------

  datatype Config = Config(metric: nat, requireSentinel: bool)

  /** What a reconcile reads: the interface index, the IPv6 default routes on it, and NUD states. */
  datatype Ipv6 = Ipv6(index: Option<nat>, routes6: seq<DefaultRoute>, nud: In6 -> nat)

  /** The IPv4 table and the daemon's memory of its own route and interface. */
  datatype State = State(table: set<Route4>, index: Option<nat>, installedVia: Option<In6>)

  predicate Ours(r: Route4) {
    r.proto == RT_PROTO && IsDefault(r)
  }

  function OurRoute(cfg: Config, oif: nat, via: In6): Route4 {
    Route4(0, 0, oif, cfg.metric, RT_PROTO, V6(via))
  }

  ghost function OursIn(table: set<Route4>): set<Route4> {
    set r | r in table && Ours(r)
  }

  predicate SentinelPresent(table: set<Route4>, index: nat) {
    exists r :: r in table && IsDefault(r) && r.oif == index && r.proto != RT_PROTO && r.gw == V4(SENTINEL)
  }

  predicate GateOpen(cfg: Config, table: set<Route4>, index: nat) {
    !cfg.requireSentinel || SentinelPresent(table, index)
  }

  // ---- steps ----------------------------------------------------------------

  function InstallRoute(cfg: Config, s: State, index: nat, gw: In6, ok: bool): State {
    if s.installedVia == Some(gw) || !ok then s
    else s.(table := Replace(s.table, OurRoute(cfg, index, gw)), installedVia := Some(gw))
  }

  function Withdraw(cfg: Config, s: State, index: nat, ok: bool): State {
    State(if ok then Delete(s.table, index, cfg.metric) else s.table, s.index, None)
  }

  function Reconciled(cfg: Config, s: State, v6: Ipv6, ok: bool): State {
    if v6.index.None? then s.(index := None, installedVia := None)
    else
      var index := v6.index.value;
      var s1 := s.(index := Some(index));
      var gw := LinuxChoice(v6.routes6, v6.nud);
      if GateOpen(cfg, s.table, index) && gw.Some? then InstallRoute(cfg, s1, index, gw.value, ok)
      else if s.installedVia.Some? then Withdraw(cfg, s1, index, ok)
      else s1
  }

  function ShutDown(cfg: Config, s: State, ok: bool): State {
    if s.installedVia.Some? && s.index.Some? then Withdraw(cfg, s, s.index.value, ok) else s
  }

  /** What the outcome should be: our default via the selected router, iff the gate is open and one exists. */
  ghost function Wanted(cfg: Config, table: set<Route4>, v6: Ipv6): set<Route4> {
    if v6.index.None? then {}
    else
      var gw := LinuxChoice(v6.routes6, v6.nud);
      if GateOpen(cfg, table, v6.index.value) && gw.Some? then {OurRoute(cfg, v6.index.value, gw.value)} else {}
  }

  // ---- coherence ------------------------------------------------------------

  /** The shadow describes the kernel; while the interface is gone the kernel has already dropped our route. */
  ghost predicate Coherent(cfg: Config, s: State, gone: bool) {
    && (s.installedVia.None? ==> OursIn(s.table) == {})
    && (s.installedVia.Some? ==>
          s.index.Some? && OursIn(s.table) == if gone then {} else {OurRoute(cfg, s.index.value, s.installedVia.value)})
  }

  /** Nobody else has a default at the daemon's metric. */
  ghost predicate MetricFree(cfg: Config, table: set<Route4>) {
    forall r :: r in table && IsDefault(r) && r.metric == cfg.metric ==> Ours(r)
  }

  /** The interface has vanished, or it still has the number the shadow remembers. */
  ghost predicate SameIndex(s: State, v6: Ipv6, gone: bool) {
    s.installedVia.Some? && !gone && v6.index.Some? ==> v6.index == s.index
  }

  lemma ReplacedOurs(cfg: Config, table: set<Route4>, index: nat, gw: In6)
    requires MetricFree(cfg, table)
    requires forall r :: r in OursIn(table) ==> r.metric == cfg.metric
    ensures OursIn(Replace(table, OurRoute(cfg, index, gw))) == {OurRoute(cfg, index, gw)}
    ensures forall r :: !Ours(r) ==> (r in Replace(table, OurRoute(cfg, index, gw)) <==> r in table)
  {
  }

  lemma DeletedOurs(cfg: Config, table: set<Route4>, index: nat)
    requires forall r :: r in OursIn(table) ==> r.metric == cfg.metric && r.oif == index
    ensures OursIn(Delete(table, index, cfg.metric)) == {}
    ensures forall r :: !Ours(r) ==> (r in Delete(table, index, cfg.metric) <==> r in table)
  {
  }

  /** One successful reconcile from a coherent state puts exactly the wanted route in place. */
  lemma ReconcileReachesWanted(cfg: Config, s: State, v6: Ipv6, gone: bool)
    requires Coherent(cfg, s, gone) && MetricFree(cfg, s.table) && SameIndex(s, v6, gone)
    requires gone ==> v6.index.None?
    requires v6.index.None? ==> gone || s.installedVia.None?
    ensures var s' := Reconciled(cfg, s, v6, true);
            && OursIn(s'.table) == Wanted(cfg, s.table, v6)
            && Coherent(cfg, s', false)
            && (forall r :: !Ours(r) ==> (r in s'.table <==> r in s.table))
            && s'.index == v6.index
  {
    if v6.index.Some? {
      var index := v6.index.value;
      var gw := LinuxChoice(v6.routes6, v6.nud);
      assert forall r :: r in OursIn(s.table) ==> r.metric == cfg.metric && r.oif == index;
      if gw.Some? {
        ReplacedOurs(cfg, s.table, index, gw.value);
      }
      DeletedOurs(cfg, s.table, index);
    }
  }

  // ---- runs -----------------------------------------------------------------

  /** One wakeup: the IPv4 table as the outside world has left it, and the IPv6 reading. */
  datatype Round = Round(table: set<Route4>, v6: Ipv6)

  /**
   * Between wakeups only the daemon touches proto-199 routes and nobody takes its metric; an
   * interface that vanishes takes the daemon's route along and is seen to be gone.
   */
  ghost predicate Fair(cfg: Config, s: State, r: Round) {
    && MetricFree(cfg, r.table)
    && if s.installedVia.Some? && r.v6.index.None? then OursIn(r.table) == {}
       else OursIn(r.table) == OursIn(s.table) && (s.installedVia.Some? ==> r.v6.index == s.index)
  }

  function Rounds(cfg: Config, s: State, rounds: seq<Round>): State
    decreases |rounds|
  {
    if rounds == [] then s
    else Rounds(cfg, Reconciled(cfg, s.(table := rounds[0].table), rounds[0].v6, true), rounds[1..])
  }

  ghost predicate FairRun(cfg: Config, s: State, rounds: seq<Round>)
    decreases |rounds|
  {
    rounds != [] ==>
      && Fair(cfg, s, rounds[0])
      && FairRun(cfg, Reconciled(cfg, s.(table := rounds[0].table), rounds[0].v6, true), rounds[1..])
  }

  lemma RoundReachesWanted(cfg: Config, s: State, r: Round)
    requires Coherent(cfg, s, false) && Fair(cfg, s, r)
    ensures var s' := Reconciled(cfg, s.(table := r.table), r.v6, true);
            && Coherent(cfg, s', false)
            && OursIn(s'.table) == Wanted(cfg, r.table, r.v6)
            && (forall x :: !Ours(x) ==> (x in s'.table <==> x in r.table))
  {
    ReconcileReachesWanted(cfg, s.(table := r.table), r.v6, s.installedVia.Some? && r.v6.index.None?);
  }

  lemma ShutDownLeavesNothing(cfg: Config, s: State)
    requires Coherent(cfg, s, false)
    ensures OursIn(ShutDown(cfg, s, true).table) == {}
    ensures forall r :: !Ours(r) ==> (r in ShutDown(cfg, s, true).table <==> r in s.table)
  {
    if s.installedVia.Some? {
      DeletedOurs(cfg, s.table, s.index.value);
    }
  }

  /**
   * After every reconcile of a fair run, our default exists iff the gate is open and a router is
   * selectable, it then points at the selected router, every other route is as the outside world
   * left it, and shutting down at that point leaves nothing of ours behind.
   */
  lemma {:induction false} LinuxRunSafety(cfg: Config, s: State, rounds: seq<Round>)
    requires Coherent(cfg, s, false) && FairRun(cfg, s, rounds) && rounds != []
    ensures var last := rounds[|rounds| - 1];
            var s' := Rounds(cfg, s, rounds);
            && Coherent(cfg, s', false)
            && OursIn(s'.table) == Wanted(cfg, last.table, last.v6)
            && (forall r :: !Ours(r) ==> (r in s'.table <==> r in last.table))
            && OursIn(ShutDown(cfg, s', true).table) == {}
    decreases |rounds|
  {
    RoundReachesWanted(cfg, s, rounds[0]);
    var s1 := Reconciled(cfg, s.(table := rounds[0].table), rounds[0].v6, true);
    if |rounds| == 1 {
      assert rounds[1..] == [];
      ShutDownLeavesNothing(cfg, s1);
    } else {
      LinuxRunSafety(cfg, s1, rounds[1..]);
    }
  }

  /** Somebody else's IPv4 default via 192.0.0.11 on the interface: not of protocol 199. */
  ghost predicate ForeignSentinel(table: set<Route4>, index: nat) {
    exists r :: r in table && r.dstLen == 0 && r.oif == index && r.proto != 199 && r.gw == V4(0xc000000b)
  }

  /**
   * What a reconcile is to achieve, route by route: a default of protocol 199 is in the table exactly
   * when the interface is there, the sentinel too where it is required, and some IPv6 default route
   * has a gateway; it is then the only one, at the configured metric, through the selected gateway.
   */
  lemma WantedRoutes(cfg: Config, table: set<Route4>, v6: Ipv6, r: Route4)
    ensures r in Wanted(cfg, table, v6) <==>
            && v6.index.Some? && (cfg.requireSentinel ==> ForeignSentinel(table, v6.index.value))
            && LinuxChoice(v6.routes6, v6.nud).Some?
            && r == Route4(0, 0, v6.index.value, cfg.metric, 199, V6(LinuxChoice(v6.routes6, v6.nud).value))
    ensures r in OursIn(table) <==> r in table && r.proto == 199 && r.dstLen == 0
  {
    if v6.index.Some? {
      assert SentinelPresent(table, v6.index.value) <==> ForeignSentinel(table, v6.index.value);
    }
  }

  /** Every kernel call fails: the table stays, a failed install is not recorded, a failed withdrawal is forgotten. */
  lemma RefusedCalls(cfg: Config, s: State, v6: Ipv6)
    ensures var s' := Reconciled(cfg, s, v6, false);
            && s'.table == s.table && s'.index == v6.index
            && (v6.index.Some? && GateOpen(cfg, s.table, v6.index.value) && LinuxChoice(v6.routes6, v6.nud).Some? ==>
                  s'.installedVia == s.installedVia)
            && (v6.index.None? || !GateOpen(cfg, s.table, v6.index.value) || LinuxChoice(v6.routes6, v6.nud).None? ==>
                  s'.installedVia == None)
    ensures ShutDown(cfg, s, false).table == s.table
  {
  }

  // ---- the limits of trusting the shadow ------------------------------------

  /** With the gate open, the outcome is right iff the shadow does not already claim it or the kernel bears it out. */
  lemma OpenGateIff(cfg: Config, s: State, v6: Ipv6)
    requires v6.index.Some? && GateOpen(cfg, s.table, v6.index.value) && LinuxChoice(v6.routes6, v6.nud).Some?
    requires MetricFree(cfg, s.table) && forall r :: r in OursIn(s.table) ==> r.metric == cfg.metric
    ensures var gw := LinuxChoice(v6.routes6, v6.nud).value;
            OursIn(Reconciled(cfg, s, v6, true).table) == Wanted(cfg, s.table, v6) <==>
              s.installedVia != Some(gw) || OursIn(s.table) == {OurRoute(cfg, v6.index.value, gw)}
  {
  }

  /** With the gate closed or no router, nothing of ours remains iff there was nothing or the shadow knows it. */
  lemma ClosedGateIff(cfg: Config, s: State, v6: Ipv6)
    requires v6.index.Some?
    requires !GateOpen(cfg, s.table, v6.index.value) || LinuxChoice(v6.routes6, v6.nud).None?
    ensures OursIn(Reconciled(cfg, s, v6, true).table) == {} <==>
              OursIn(s.table) == {} ||
              (s.installedVia.Some? &&
               forall r :: r in OursIn(s.table) ==> r.metric == cfg.metric && r.oif == v6.index.value)
  {
    var t := Delete(s.table, v6.index.value, cfg.metric);
    assert forall r :: r in OursIn(t) <==>
      r in OursIn(s.table) && !(r.metric == cfg.metric && r.oif == v6.index.value);
  }

  /** A reading with one REACHABLE default router. */
  function OneRouter(index: nat, via: In6): Ipv6 {
    Ipv6(Some(index), [DefaultRoute(Some(via), None)], _ => 0x02)
  }

  lemma OneRouterIsChosen(index: nat, via: In6)
    ensures LinuxChoice(OneRouter(index, via).routes6, OneRouter(index, via).nud) == Some(via)
  {
    var r := DefaultRoute(Some(via), None);
    assert [r][..0] == [];
    assert LinuxBest([r], OneRouter(index, via).nud) == Some(r);
  }

  /** From the start, a reconcile, a flush and another reconcile: the route is wanted and missing. */
  lemma FlushedRouteExample(cfg: Config, index: nat, via: In6)
    requires !cfg.requireSentinel
    ensures var v6 := OneRouter(index, via);
            var s1 := Reconciled(cfg, State({}, None, None), v6, true);
            var s2 := Reconciled(cfg, s1.(table := {}), v6, true);
            OursIn(s1.table) == Wanted(cfg, {}, v6) && OursIn(s2.table) == {} && Wanted(cfg, {}, v6) != {}
  {
    OneRouterIsChosen(index, via);
    var v6 := OneRouter(index, via);
    ReconcileReachesWanted(cfg, State({}, None, None), v6, false);
    OpenGateIff(cfg, Reconciled(cfg, State({}, None, None), v6, true).(table := {}), v6);
    assert OurRoute(cfg, index, via) in Wanted(cfg, {}, v6);
  }

  /** The daemon installs and is killed; the sentinel goes; the restarted daemon leaves the old route in place. */
  lemma LeftoverRouteExample(index: nat, metric: nat, via: In6)
    ensures var cfg, v6 := Config(metric, true), OneRouter(index, via);
            var sentinel := Route4(0, 0, index, metric + 1, 0, V4(SENTINEL));
            var s1 := Reconciled(cfg, State({sentinel}, None, None), v6, true);
            var s2 := Reconciled(cfg, State(s1.table - {sentinel}, None, None), v6, true);
            OursIn(s2.table) == {OurRoute(cfg, index, via)} && Wanted(cfg, s1.table - {sentinel}, v6) == {}
  {
    var cfg, v6 := Config(metric, true), OneRouter(index, via);
    var sentinel := Route4(0, 0, index, metric + 1, 0, V4(SENTINEL));
    OneRouterIsChosen(index, via);
    ReconcileReachesWanted(cfg, State({sentinel}, None, None), v6, false);
    var s1 := Reconciled(cfg, State({sentinel}, None, None), v6, true);
    assert OurRoute(cfg, index, via) in s1.table;
    assert s1.table == {sentinel, OurRoute(cfg, index, via)};
  }

  // ---- the object -----------------------------------------------------------

  method ReadSentinel(table: set<Route4>, index: nat) returns (present: bool)
    ensures present <==> SentinelPresent(table, index)
  {
    var rest := table;
    while rest != {}
      invariant rest <= table
      invariant SentinelPresent(table, index) <==> SentinelPresent(rest, index)
      decreases rest
    {
      var r :| r in rest;
      if IsDefault(r) && r.oif == index && r.proto != RT_PROTO && r.gw == V4(SENTINEL) {
        return true;
      }
      rest := rest - {r};
    }
    return false;
  }

  class Interface {
    const cfg: Config
    /** The kernel's IPv4 routes. */
    var table: set<Route4>
    var index: Option<nat>
    var installedVia: Option<In6>

    ghost function Now(): State
      reads this
    {
      State(table, index, installedVia)
    }

    constructor (cfg: Config, table: set<Route4>)
      ensures this.cfg == cfg && Now() == State(table, None, None)
    {
      this.cfg, this.table, this.index, this.installedVia := cfg, table, None, None;
    }

    method InstallVia(idx: nat, gw: In6, ok: bool)
      modifies this
      ensures Now() == InstallRoute(cfg, old(Now()), idx, gw, ok)
    {
      if installedVia == Some(gw) {
        return;
      }
      if ok {
        table := Replace(table, OurRoute(cfg, idx, gw));
        installedVia := Some(gw);
      }
    }

    method WithdrawVia(idx: nat, ok: bool)
      modifies this
      ensures Now() == Withdraw(cfg, old(Now()), idx, ok)
    {
      if ok {
        table := Delete(table, idx, cfg.metric);
      }
      installedVia := None;
    }

    method Reconcile(v6: Ipv6, ok: bool)
      modifies this
      ensures Now() == Reconciled(cfg, old(Now()), v6, ok)
    {
      index := v6.index;
      if index.None? {
        installedVia := None;
        return;
      }
      if cfg.requireSentinel {
        var present := ReadSentinel(table, index.value);
        if !present {
          if installedVia.Some? {
            WithdrawVia(index.value, ok);
          }
          return;
        }
      }
      var gw := LinuxSelect(v6.routes6, v6.nud);
      if gw.None? {
        if installedVia.Some? {
          WithdrawVia(index.value, ok);
        }
        return;
      }
      InstallVia(index.value, gw.value, ok);
    }

    method Stop(ok: bool)
      modifies this
      ensures Now() == ShutDown(cfg, old(Now()), ok)
    {
      if installedVia.Some? && index.Some? {
        WithdrawVia(index.value, ok);
      }
    }
  }
}
