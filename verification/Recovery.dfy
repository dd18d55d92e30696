/** What a restart repairs: the restored table trusts no next hop, so the first sweep rewrites every route it can. */
module Recovery {
  import opened Prelude
  import opened NextHop
  import opened StateFile
  import opened ReturnRoutes
  import opened Effects
  import opened CrashRuns
  import opened Sweeps

  /** No other host holds this host's address. */
  ghost predicate Alone(hosts: map<string, Host>, m: string) {
    m in hosts && forall n :: n in hosts && n != m ==> hosts[n].ip4 != hosts[m].ip4
  }

  /** A recorded next hop of `m` is the one in the kernel. */
  ghost predicate Truthful(w: World, m: string, idx: nat) {
    m in w.hosts.vals && (w.hosts.vals[m].nh.Some? ==>
                            RouteFor(w, w.hosts.vals[m].ip4) == Some(Route(idx, w.hosts.vals[m].nh.value)))
  }

  lemma EvaluateKeepsTruth(w: World, env: Env, mac: string, m: string, idx: nat)
    requires env.installOk && Alone(w.hosts.vals, m) && Truthful(w, m, idx)
    requires Index(env.net, w.hosts.vals[m].iface) == Some(idx)
    ensures var w' := Evaluated(w, env, mac);
            && Alone(w'.hosts.vals, m) && Truthful(w', m, idx)
            && w'.hosts.vals[m].iface == w.hosts.vals[m].iface
  {
  }

  lemma {:induction false} SweepKeepsTruth(w: World, env: Env, macs: seq<string>, m: string, idx: nat)
    requires env.installOk && Alone(w.hosts.vals, m) && Truthful(w, m, idx)
    requires Index(env.net, w.hosts.vals[m].iface) == Some(idx)
    ensures Truthful(Sweep(w, env, macs), m, idx)
    decreases |macs|
  {
    if macs != [] {
      EvaluateKeepsTruth(w, env, macs[0], m, idx);
      SweepKeepsTruth(Evaluated(w, env, macs[0]), env, macs[1..], m, idx);
    }
  }

  ghost predicate Unheld(hosts: map<string, Host>, ip4: string) {
    forall m :: m in hosts ==> hosts[m].ip4 != ip4
  }

  lemma EvaluateSparesUnheld(w: World, env: Env, mac: string, ip4: string)
    requires Unheld(w.hosts.vals, ip4)
    ensures var w' := Evaluated(w, env, mac);
            Unheld(w'.hosts.vals, ip4) && RouteFor(w', ip4) == RouteFor(w, ip4)
  {
  }

  /** A sweep touches no route of an address that no host holds. */
  lemma {:induction false} SweepSparesUnheld(w: World, env: Env, macs: seq<string>, ip4: string)
    requires Unheld(w.hosts.vals, ip4)
    ensures RouteFor(Sweep(w, env, macs), ip4) == RouteFor(w, ip4)
    decreases |macs|
  {
    if macs != [] {
      EvaluateSparesUnheld(w, env, macs[0], ip4);
      SweepSparesUnheld(Evaluated(w, env, macs[0]), env, macs[1..], ip4);
    }
  }

  lemma RestoredWithoutHops(w: World, now: int, leaseFile: Option<string>, m: string)
    ensures var w1 := ApplyAll(BootOps(w, now, leaseFile), w);
            && w1.routes == w.routes
            && (m in w1.hosts.vals ==> w1.hosts.vals[m].nh == None)
  {
    BootEffect(w, now, leaseFile);
    var kept := KeptRows(StateRows(w.state), LiveLeases(leaseFile));
    if m in RestoreInto(EmptyDict(), kept, now).vals {
      RestoredFields(EmptyDict(), kept, now, m);
    }
  }

  /** The process starts: restore, then one sweep on a kernel reading. */
  function Started(w: World, now: int, leaseFile: Option<string>, env: Env): World {
    var w1 := ApplyAll(BootOps(w, now, leaseFile), w);
    ApplyAll(SweepOps(w1, env, w1.hosts.keys), w1)
  }

  /**
   * Whatever kernel, disk and the dead process's memory held, flushed, refused and stale routes
   * included: once installs succeed, starting up routes every restored host that alone holds its
   * address and has a usable neighbour to the first entry of its best tier.
   */
  lemma StartRepairs(w: World, now: int, leaseFile: Option<string>, env: Env, m: string)
    requires env.installOk
    requires var w1 := ApplyAll(BootOps(w, now, leaseFile), w);
             Alone(w1.hosts.vals, m) && Target(w1, env.net, m).Some?
    ensures var w1 := ApplyAll(BootOps(w, now, leaseFile), w);
            var idx := Index(env.net, w1.hosts.vals[m].iface).value;
            RouteFor(Started(w, now, leaseFile, env), w1.hosts.vals[m].ip4) ==
              Some(Route(idx, Target(w1, env.net, m).value))
  {
    var w1 := ApplyAll(BootOps(w, now, leaseFile), w);
    var idx := Index(env.net, w1.hosts.vals[m].iface).value;
    RestoredWithoutHops(w, now, leaseFile, m);
    SweepEffect(w1, env, w1.hosts.keys);
    SweepReachesTargets(w1, env, w1.hosts.keys, m);
    SweepKeepsTruth(w1, env, w1.hosts.keys, m, idx);
  }

  /** And it neither repairs nor removes the route of an address it did not restore. */
  lemma StartIgnoresUnrestored(w: World, now: int, leaseFile: Option<string>, env: Env, ip4: string)
    requires Unheld(ApplyAll(BootOps(w, now, leaseFile), w).hosts.vals, ip4)
    ensures RouteFor(Started(w, now, leaseFile, env), ip4) == RouteFor(w, ip4)
  {
    var w1 := ApplyAll(BootOps(w, now, leaseFile), w);
    BootEffect(w, now, leaseFile);
    SweepEffect(w1, env, w1.hosts.keys);
    SweepSparesUnheld(w1, env, w1.hosts.keys, ip4);
  }
}
