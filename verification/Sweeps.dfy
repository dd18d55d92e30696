/** What a sweep over all hosts settles on. */
module Sweeps {
  import opened Prelude
  import opened Inet
  import opened Text
  import opened NextHop
  import opened ReturnRoutes
  import opened Effects

  // ---- convergence ----------------------------------------------------------

  function Sweep(w: World, env: Env, macs: seq<string>): World
    decreases |macs|
  {
    if macs == [] then w else Sweep(Evaluated(w, env, macs[0]), env, macs[1..])
  }

  lemma {:induction false} SweepEffect(w: World, env: Env, macs: seq<string>)
    ensures ApplyAll(SweepOps(w, env, macs), w) == Sweep(w, env, macs)
    decreases |macs|
  {
    if macs != [] {
      var ops := EvaluateOps(w, env, macs[0]);
      EvaluateEffect(w, env, macs[0]);
      SweepEffect(Evaluated(w, env, macs[0]), env, macs[1..]);
      ApplyAllConcat(ops, SweepOps(Evaluated(w, env, macs[0]), env, macs[1..]), w);
    }
  }

  /** The host's best next hop on this kernel reading, when its interface exists and one is usable. */
  function Target(w: World, net: Net, mac: string): Option<In6> {
    if mac !in w.hosts.vals then None
    else
      var idx := Index(net, w.hosts.vals[mac].iface);
      if idx.None? then None else BestNexthop(net, idx.value, mac)
  }

  /** Nothing remains to be changed for this host. */
  ghost predicate AtTarget(w: World, net: Net, mac: string) {
    mac in w.hosts.vals && (Target(w, net, mac).Some? ==> w.hosts.vals[mac].nh == Target(w, net, mac))
  }

  lemma EvaluateReachesTarget(w: World, env: Env, mac: string, other: string)
    requires other in w.hosts.vals
    ensures var w' := Evaluated(w, env, mac);
            && other in w'.hosts.vals
            && Target(w', env.net, other) == Target(w, env.net, other)
            && w'.hosts.vals[other].iface == w.hosts.vals[other].iface
            && w'.hosts.vals[other].ip4 == w.hosts.vals[other].ip4
            && (other != mac ==> w'.hosts.vals[other] == w.hosts.vals[other])
            && (other == mac ==> AtTarget(w', env.net, mac))
            && (AtTarget(w, env.net, other) ==> AtTarget(w', env.net, other))
  {
  }

  lemma {:induction false} SweepReachesTargets(w: World, env: Env, macs: seq<string>, m: string)
    requires m in w.hosts.vals && (m in macs || AtTarget(w, env.net, m))
    ensures var w' := Sweep(w, env, macs);
            && AtTarget(w', env.net, m)
            && Target(w', env.net, m) == Target(w, env.net, m)
            && w'.hosts.vals[m].iface == w.hosts.vals[m].iface
            && w'.hosts.vals[m].ip4 == w.hosts.vals[m].ip4
    decreases |macs|
  {
    if macs != [] {
      EvaluateReachesTarget(w, env, macs[0], m);
      SweepReachesTargets(Evaluated(w, env, macs[0]), env, macs[1..], m);
    }
  }

  /**
   * After `reconcile_all` on one kernel reading, every host with a present interface and a usable
   * neighbour is recorded at the first entry of its best non-empty tier.
   */
  lemma SweepConverges(w: World, env: Env, m: string)
    requires m in w.hosts.vals
    ensures var w' := ApplyAll(SweepOps(w, env, w.hosts.keys), w);
            && AtTarget(w', env.net, m)
            && w'.hosts.vals[m].ip4 == w.hosts.vals[m].ip4
            && (Target(w, env.net, m).Some? ==>
                  var idx := Index(env.net, w.hosts.vals[m].iface).value;
                  var cache, gua := Cache(env.net, idx, m), DerivedGua(env.net, idx, m);
                  exists i: nat :: FirstOfBestTier(cache, gua, i) && w'.hosts.vals[m].nh == Some(cache.keys[i]))
  {
    SweepEffect(w, env, w.hosts.keys);
    SweepReachesTargets(w, env, w.hosts.keys, m);
    if Target(w, env.net, m).Some? {
      var idx := Index(env.net, w.hosts.vals[m].iface).value;
      var cache, gua := Cache(env.net, idx, m), DerivedGua(env.net, idx, m);
      ChoiceIsFirstOfBestTier(cache, gua);
    }
  }

  predicate RouteCall(op: Op) {
    op.Install? || op.Withdraw?
  }

  lemma QuietEvaluation(w: World, env: Env, mac: string)
    requires mac in w.hosts.vals ==> AtTarget(w, env.net, mac)
    ensures forall op :: op in EvaluateOps(w, env, mac) ==> !RouteCall(op)
    ensures Evaluated(w, env, mac).routes == w.routes
  {
  }

  lemma {:induction false} QuietSweep(w: World, env: Env, macs: seq<string>)
    requires forall m :: m in w.hosts.vals ==> AtTarget(w, env.net, m)
    ensures forall op :: op in SweepOps(w, env, macs) ==> !RouteCall(op)
    decreases |macs|
  {
    if macs != [] {
      QuietEvaluation(w, env, macs[0]);
      EvaluateEffect(w, env, macs[0]);
      var w1 := Evaluated(w, env, macs[0]);
      assert w1.hosts.vals.Keys == w.hosts.vals.Keys;
      forall m | m in w1.hosts.vals
        ensures AtTarget(w1, env.net, m)
      {
        EvaluateReachesTarget(w, env, macs[0], m);
      }
      QuietSweep(w1, env, macs[1..]);
    }
  }

  lemma {:induction false} SweepKeepsHosts(w: World, env: Env, macs: seq<string>)
    ensures Sweep(w, env, macs).hosts.vals.Keys == w.hosts.vals.Keys
    ensures Sweep(w, env, macs).hosts.keys == w.hosts.keys
    decreases |macs|
  {
    if macs != [] {
      SweepKeepsHosts(Evaluated(w, env, macs[0]), env, macs[1..]);
    }
  }

  /** A second sweep on the same kernel reading, at any later time, issues no route call. */
  lemma RepeatedSweepIsQuiet(w: World, env: Env, again: Env)
    requires again.net == env.net
    ensures var w' := ApplyAll(SweepOps(w, env, w.hosts.keys), w);
            forall op :: op in SweepOps(w', again, w'.hosts.keys) ==> !RouteCall(op)
  {
    SweepEffect(w, env, w.hosts.keys);
    SweepKeepsHosts(w, env, w.hosts.keys);
    var w' := Sweep(w, env, w.hosts.keys);
    forall m | m in w'.hosts.vals
      ensures AtTarget(w', env.net, m)
    {
      SweepReachesTargets(w, env, w.hosts.keys, m);
    }
    QuietSweep(w', again, w'.hosts.keys);
  }

  // ---- no two hosts share a next hop ----------------------------------------

  /** The ND cache holds one MAC per address on an interface. */
  ghost predicate OneMacPerAddress(rows: seq<Neighbour>) {
    forall i, j :: 0 <= i < |rows| && 0 <= j < |rows| && rows[i].ifindex == rows[j].ifindex &&
                   rows[i].dst.Some? && rows[i].dst == rows[j].dst && rows[i].lladdr.Some? && rows[j].lladdr.Some? ==>
      Lower(rows[i].lladdr.value) == Lower(rows[j].lladdr.value)
  }

  lemma BestIsInCache(net: Net, idx: nat, mac: string)
    requires BestNexthop(net, idx, mac).Some?
    ensures net.neighboursReadable
    ensures exists i :: 0 <= i < |net.neighbours| && BelongsTo(net.neighbours[i], idx, mac) &&
                        net.neighbours[i].dst == BestNexthop(net, idx, mac)
  {
    var cache, gua := Cache(net, idx, mac), DerivedGua(net, idx, mac);
    ChoiceIsFirstOfBestTier(cache, gua);
    CacheComesFromRows(net.neighbours, |net.neighbours|, idx, mac, BestNexthop(net, idx, mac).value);
  }

  /** After a sweep, distinct hosts on one interface that have a usable neighbour have distinct next hops. */
  lemma SweptHostsHaveDistinctHops(w: World, env: Env, m: string, n: string)
    requires m in w.hosts.vals && n in w.hosts.vals && m != n
    requires w.hosts.vals[m].iface == w.hosts.vals[n].iface
    requires Target(w, env.net, m).Some? && Target(w, env.net, n).Some?
    requires OneMacPerAddress(env.net.neighbours)
    ensures var w' := ApplyAll(SweepOps(w, env, w.hosts.keys), w);
            m in w'.hosts.vals && n in w'.hosts.vals && w'.hosts.vals[m].nh != w'.hosts.vals[n].nh
  {
    SweepEffect(w, env, w.hosts.keys);
    SweepReachesTargets(w, env, w.hosts.keys, m);
    SweepReachesTargets(w, env, w.hosts.keys, n);
    var idx := Index(env.net, w.hosts.vals[m].iface).value;
    BestIsInCache(env.net, idx, m);
    BestIsInCache(env.net, idx, n);
    var rows := env.net.neighbours;
    var i :| 0 <= i < |rows| && BelongsTo(rows[i], idx, m) && rows[i].dst == BestNexthop(env.net, idx, m);
    var j :| 0 <= j < |rows| && BelongsTo(rows[j], idx, n) && rows[j].dst == BestNexthop(env.net, idx, n);
  }
}
