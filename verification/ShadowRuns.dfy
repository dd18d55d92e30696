/** Agreement between the host table and the kernel's proto-149 routes over runs without restarts. */
module ShadowRuns {
  import opened Prelude
  import opened Inet
  import opened NextHop
  import opened ReturnRoutes
  import opened Effects

  // ---- every route is for a tracked address ---------------------------------

  lemma TrackedAfterEvaluate(w: World, env: Env, mac: string)
    requires Tracked(w)
    ensures Tracked(Evaluated(w, env, mac))
  {
    var w' := Evaluated(w, env, mac);
    forall ip4 | ip4 in w'.routes
      ensures Held(w'.hosts.vals, ip4)
    {
      if ip4 in w.routes {
        var m :| HeldBy(w.hosts.vals, ip4, m);
        assert HeldBy(w'.hosts.vals, ip4, m);
      } else {
        assert HeldBy(w'.hosts.vals, ip4, mac);
      }
    }
  }

  /** A release leaves only tracked routes exactly when the route is gone or someone else holds the address. */
  lemma TrackedAfterReleaseIff(w: World, env: Env, mac: string)
    requires Tracked(w) && mac in w.hosts.vals
    ensures var ip4 := w.hosts.vals[mac].ip4;
            Tracked(ReleaseTable(w, env, mac)) <==>
              env.deleteOk || ip4 !in w.routes || exists m :: m != mac && HeldBy(w.hosts.vals, ip4, m)
  {
    var ip4 := w.hosts.vals[mac].ip4;
    var w' := ReleaseTable(w, env, mac);
    assert forall a, m :: HeldBy(w'.hosts.vals, a, m) <==> m != mac && HeldBy(w.hosts.vals, a, m);
    if env.deleteOk || ip4 !in w.routes || exists m :: m != mac && HeldBy(w.hosts.vals, ip4, m) {
      forall a | a in w'.routes
        ensures Held(w'.hosts.vals, a)
      {
        var m :| HeldBy(w.hosts.vals, a, m);
        if m == mac {
          var other :| other != mac && HeldBy(w.hosts.vals, ip4, other);
          assert HeldBy(w'.hosts.vals, a, other);
        } else {
          assert HeldBy(w'.hosts.vals, a, m);
        }
      }
    }
  }

  /** A lease leaves only tracked routes exactly when a changed lease's old route is gone or still held. */
  lemma TrackedAfterLeaseIff(w: World, env: Env, iface: string, mac: string, ip4: string)
    requires Tracked(w)
    ensures Tracked(LeaseTable(w, env, iface, mac, ip4)) <==>
              || !LeaseChanged(w, iface, mac, ip4) || env.deleteOk || w.hosts.vals[mac].ip4 !in w.routes
              || w.hosts.vals[mac].ip4 == ip4 || exists m :: m != mac && HeldBy(w.hosts.vals, w.hosts.vals[mac].ip4, m)
  {
    var w' := LeaseTable(w, env, iface, mac, ip4);
    assert forall a, m :: m != mac ==> (HeldBy(w'.hosts.vals, a, m) <==> HeldBy(w.hosts.vals, a, m));
    if !LeaseChanged(w, iface, mac, ip4) {
      forall a | a in w'.routes
        ensures Held(w'.hosts.vals, a)
      {
        var m :| HeldBy(w.hosts.vals, a, m);
        assert HeldBy(w'.hosts.vals, a, m);
      }
    } else {
      var was := w.hosts.vals[mac].ip4;
      forall a | a in w'.routes && a != was
        ensures Held(w'.hosts.vals, a)
      {
        var m :| HeldBy(w.hosts.vals, a, m);
        assert HeldBy(w'.hosts.vals, a, m);
      }
      assert HeldBy(w'.hosts.vals, ip4, mac);
      if m :| m != mac && HeldBy(w.hosts.vals, was, m) {
        assert HeldBy(w'.hosts.vals, was, m);
      }
    }
  }

  /** The event's route deletions succeed; nothing is asked of installs, disk writes or outside flushes. */
  predicate DeletesSucceed(e: Event) {
    e.Line? ==> e.env.deleteOk
  }

  ghost predicate CalmRun(items: seq<Item>) {
    forall i :: 0 <= i < |items| ==> items[i].Do? && DeletesSucceed(items[i].e)
  }

  lemma TrackedAfterEvent(w: World, e: Event)
    requires Tracked(w) && DeletesSucceed(e)
    ensures Tracked(ApplyAll(EventOps(w, e), w))
  {
    match e
    case Line(env, text) =>
      match ParseRequest(text) {
        case Lease(iface, mac, ip4) =>
          TrackedAfterLeaseIff(w, env, iface, mac, ip4);
          TrackedAfterEvaluate(LeaseTable(w, env, iface, mac, ip4), env, mac);
          LeaseEffect(w, env, iface, mac, ip4);
        case Release(mac) =>
          if mac in w.hosts.vals {
            TrackedAfterReleaseIff(w, env, mac);
          }
          ReleaseEffect(w, env, mac);
        case Ignored =>
      }
    case Evaluate(env, mac) =>
      TrackedAfterEvaluate(w, env, mac);
      EvaluateEffect(w, env, mac);
    case External(ips) =>
      assert [Flush(ips)][1..] == [];
  }

  /** Whatever installs and flushes do, no route is ever left for an untracked address. */
  lemma {:induction false} TrackedOverRuns(w: World, items: seq<Item>)
    requires Tracked(w) && CalmRun(items)
    ensures Tracked(Run(w, items))
    decreases |items|
  {
    if items != [] {
      TrackedAfterEvent(w, items[0].e);
      TrackedOverRuns(ApplyAll(ItemOps(w, items[0]), w), items[1..]);
    }
  }

  // ---- exact agreement ------------------------------------------------------

  ghost predicate DistinctAddresses(hosts: map<string, Host>) {
    forall m, n :: m in hosts && n in hosts && m != n ==> hosts[m].ip4 != hosts[n].ip4
  }

  ghost predicate Routed(w: World, ip4: string, m: string) {
    HeldBy(w.hosts.vals, ip4, m) && w.hosts.vals[m].nh.Some?
  }

  /** The route table is exactly the map from each tracked address to its interface and recorded next hop. */
  ghost predicate Exact(w: World, ix: string -> nat) {
    && DistinctAddresses(w.hosts.vals)
    && (forall m :: m in w.hosts.vals && w.hosts.vals[m].nh.Some? ==>
          var h := w.hosts.vals[m];
          h.ip4 in w.routes && w.routes[h.ip4] == Route(ix(h.iface), h.nh.value))
    && (forall ip4 :: ip4 in w.routes ==> exists m :: Routed(w, ip4, m))
  }

  /** Interfaces may come and go but are not renumbered. */
  ghost predicate Numbered(net: Net, ix: string -> nat) {
    forall ifname :: Index(net, ifname).Some? ==> Index(net, ifname).value == ix(ifname)
  }

  /** The evaluation calls for a route change. */
  predicate WantsInstall(w: World, env: Env, mac: string) {
    var t := Evaluable(w, env, mac);
    t.Some? && var best := BestNexthop(env.net, t.value.1, mac); best.Some? && best != t.value.0.nh
  }

  /** Touching a host's timer, with no route change, keeps the agreement. */
  lemma ExactAfterTimer(w: World, w': World, mac: string, h: Host, ix: string -> nat)
    requires Exact(w, ix) && mac in w.hosts.vals
    requires var was := w.hosts.vals[mac]; h.iface == was.iface && h.ip4 == was.ip4 && h.nh == was.nh
    requires w'.hosts.vals == w.hosts.vals[mac := h] && w'.routes == w.routes
    ensures Exact(w', ix)
  {
    forall ip4 | ip4 in w'.routes
      ensures exists m :: Routed(w', ip4, m)
    {
      var m :| Routed(w, ip4, m);
      assert Routed(w', ip4, m);
    }
  }

  /** Installing and recording the same next hop keeps the agreement. */
  lemma ExactAfterRehop(w: World, w': World, mac: string, h: Host, nh: In6, ix: string -> nat)
    requires Exact(w, ix) && mac in w.hosts.vals
    requires var was := w.hosts.vals[mac]; h.iface == was.iface && h.ip4 == was.ip4 && h.nh == Some(nh)
    requires w'.hosts.vals == w.hosts.vals[mac := h]
    requires w'.routes == w.routes[h.ip4 := Route(ix(h.iface), nh)]
    ensures Exact(w', ix)
  {
    forall ip4 | ip4 in w'.routes
      ensures exists m :: Routed(w', ip4, m)
    {
      if ip4 == h.ip4 {
        assert Routed(w', ip4, mac);
      } else {
        var m :| Routed(w, ip4, m);
        assert Routed(w', ip4, m);
      }
    }
  }

  lemma ExactAfterEvaluate(w: World, env: Env, mac: string, ix: string -> nat)
    requires Exact(w, ix) && Numbered(env.net, ix)
    requires env.installOk || !WantsInstall(w, env, mac)
    ensures Exact(Evaluated(w, env, mac), ix)
  {
    var t := Evaluable(w, env, mac);
    if t.Some? {
      var (h, idx) := t.value;
      var best := BestNexthop(env.net, idx, mac);
      var h' := EvaluatedHost(h, best, DerivedGua(env.net, idx, mac), env.now);
      var w' := EvaluatedAt(w, env, mac, h, idx);
      if WantsInstall(w, env, mac) {
        ExactAfterRehop(w, w', mac, h', best.value, ix);
      } else {
        ExactAfterTimer(w, w', mac, h', ix);
      }
    }
  }

  /** `evaluate` records the next hop even when the kernel refuses it: agreement survives iff it did not. */
  lemma ExactAfterEvaluateIff(w: World, env: Env, mac: string, ix: string -> nat)
    requires Exact(w, ix) && Numbered(env.net, ix)
    ensures Exact(Evaluated(w, env, mac), ix) <==> env.installOk || !WantsInstall(w, env, mac)
  {
    if env.installOk || !WantsInstall(w, env, mac) {
      ExactAfterEvaluate(w, env, mac, ix);
    } else {
      var w' := Evaluated(w, env, mac);
      var h := w'.hosts.vals[mac];
      assert w'.routes == w.routes && h.nh.Some? && h.nh != w.hosts.vals[mac].nh;
      assert forall m :: Routed(w, h.ip4, m) ==> m == mac;
    }
  }

  lemma ExactAfterRelease(w: World, env: Env, mac: string, ix: string -> nat)
    requires Exact(w, ix) && env.deleteOk
    ensures Exact(ReleaseTable(w, env, mac), ix)
  {
    if mac in w.hosts.vals {
      var w' := ReleaseTable(w, env, mac);
      forall ip4 | ip4 in w'.routes
        ensures exists m :: Routed(w', ip4, m)
      {
        var m :| Routed(w, ip4, m);
        assert Routed(w', ip4, m);
      }
    }
  }

  ghost predicate Unclaimed(w: World, mac: string, ip4: string) {
    forall m :: m in w.hosts.vals && m != mac ==> w.hosts.vals[m].ip4 != ip4
  }

  lemma DistinctAfterLease(hosts: map<string, Host>, mac: string, h: Host)
    requires DistinctAddresses(hosts) && forall m :: m in hosts && m != mac ==> hosts[m].ip4 != h.ip4
    ensures DistinctAddresses(hosts[mac := h])
  {
  }

  lemma StillRouted(w: World, w': World, mac: string, h: Host, ip4: string)
    requires w'.hosts.vals == w.hosts.vals[mac := h] && !HeldBy(w.hosts.vals, ip4, mac)
    requires exists m :: Routed(w, ip4, m)
    ensures exists m :: Routed(w', ip4, m)
  {
    var m :| Routed(w, ip4, m);
    assert Routed(w', ip4, m);
  }

  /** A host whose old route is gone starts over with no next hop. */
  lemma ExactAfterFreshLease(w: World, w': World, mac: string, h: Host, ix: string -> nat)
    requires Exact(w, ix) && h.nh == None && Unclaimed(w, mac, h.ip4)
    requires w'.hosts.vals == w.hosts.vals[mac := h]
    requires w'.routes == if mac in w.hosts.vals then w.routes - {w.hosts.vals[mac].ip4} else w.routes
    ensures Exact(w', ix)
  {
    DistinctAfterLease(w.hosts.vals, mac, h);
    forall ip4 | ip4 in w'.routes
      ensures exists m :: Routed(w', ip4, m)
    {
      StillRouted(w, w', mac, h, ip4);
    }
  }

  lemma ExactAfterLeaseTable(w: World, env: Env, iface: string, mac: string, ip4: string, ix: string -> nat)
    requires Exact(w, ix) && env.deleteOk && Unclaimed(w, mac, ip4)
    ensures Exact(LeaseTable(w, env, iface, mac, ip4), ix)
  {
    var w' := LeaseTable(w, env, iface, mac, ip4);
    if mac in w.hosts.vals && !LeaseChanged(w, iface, mac, ip4) {
      ExactAfterTimer(w, w', mac, w'.hosts.vals[mac], ix);
    } else {
      ExactAfterFreshLease(w, w', mac, w'.hosts.vals[mac], ix);
    }
  }

  /** One MAC per address, calls succeed, nobody else flushes, interfaces keep their numbers. */
  ghost predicate Orderly(w: World, e: Event, ix: string -> nat) {
    match e
    case Line(env, text) =>
      && env.installOk && env.deleteOk && Numbered(env.net, ix)
      && (ParseRequest(text).Lease? ==> Unclaimed(w, ParseRequest(text).mac, ParseRequest(text).ip4))
    case Evaluate(env, mac) => env.installOk && Numbered(env.net, ix)
    case External(ips) => ips !! w.routes.Keys
  }

  ghost predicate OrderlyRun(w: World, items: seq<Item>, ix: string -> nat)
    decreases |items|
  {
    items != [] ==>
      && items[0].Do? && Orderly(w, items[0].e, ix)
      && OrderlyRun(ApplyAll(ItemOps(w, items[0]), w), items[1..], ix)
  }

  lemma ExactAfterEvent(w: World, e: Event, ix: string -> nat)
    requires Exact(w, ix) && Orderly(w, e, ix)
    ensures Exact(ApplyAll(EventOps(w, e), w), ix)
  {
    match e
    case Line(env, text) =>
      match ParseRequest(text) {
        case Lease(iface, mac, ip4) =>
          ExactAfterLeaseTable(w, env, iface, mac, ip4, ix);
          ExactAfterEvaluate(LeaseTable(w, env, iface, mac, ip4), env, mac, ix);
          LeaseEffect(w, env, iface, mac, ip4);
          ExactReadsTables(Evaluated(LeaseTable(w, env, iface, mac, ip4), env, mac), ApplyAll(EventOps(w, e), w), ix);
        case Release(mac) =>
          ExactAfterRelease(w, env, mac, ix);
          ReleaseEffect(w, env, mac);
          ExactReadsTables(ReleaseTable(w, env, mac), ApplyAll(EventOps(w, e), w), ix);
        case Ignored =>
      }
    case Evaluate(env, mac) =>
      ExactAfterEvaluate(w, env, mac, ix);
      EvaluateEffect(w, env, mac);
    case External(ips) =>
      assert [Flush(ips)][1..] == [];
      assert w.routes - ips == w.routes;
  }

  lemma ExactReadsTables(w: World, w': World, ix: string -> nat)
    requires SameTables(w, w') && Exact(w, ix)
    ensures Exact(w', ix)
  {
    forall ip4 | ip4 in w'.routes
      ensures exists m :: Routed(w', ip4, m)
    {
      var m :| Routed(w, ip4, m);
      assert Routed(w', ip4, m);
    }
  }

  /** Over every orderly run of leases, renewals, releases, neighbour changes and sweeps, the shadow is exact. */
  lemma {:induction false} ExactOverRuns(w: World, items: seq<Item>, ix: string -> nat)
    requires Exact(w, ix) && OrderlyRun(w, items, ix)
    ensures Exact(Run(w, items), ix)
    decreases |items|
  {
    if items != [] {
      ExactAfterEvent(w, items[0].e, ix);
      ExactOverRuns(ApplyAll(ItemOps(w, items[0]), w), items[1..], ix);
    }
  }

  lemma FreshWorldIsExact(ix: string -> nat)
    ensures Exact(FRESH_WORLD, ix) && Tracked(FRESH_WORLD)
  {
  }
}
