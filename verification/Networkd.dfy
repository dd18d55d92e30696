/** The networkd patch: the IPv6-resolved IPv4 default, its sweep of stale routes, and the placeholder variant. */
module Networkd {
  import opened Prelude
  import opened Inet
  import opened Selection

  datatype Source = Dhcp4 | OtherSource
  datatype Family = Inet | Inet6

  /** A route networkd manages; `extra` stands for every other attribute. */
  datatype Route = Route(source: Source, ifindex: nat, family: Family, prefixLen: nat, hopFamily: Family, gw: In6,
                         extra: nat)

  /** A DHCPv4-sourced IPv4 default on this link with an IPv6 next hop. */
  predicate Resolved(r: Route, ifindex: nat) {
    r.source == Dhcp4 && r.ifindex == ifindex && r.family == Inet && r.prefixLen == 0 && r.hopFamily == Inet6
  }

  /** fe80::c000:c. */
  const PLACEHOLDER: In6 := [0xfe, 0x80, 0, 0, 0, 0, 0, 0, 0, 0, 0, 0, 0xc0, 0x00, 0x00, 0x0c]

  /** The lease: its Router option, whether it carries classless routes, and its address when readable. */
  datatype Lease = Lease(router: Option<nat>, classless: bool, address: Option<nat>)

  datatype Link = Link(ifindex: nat, kernelOk: bool, lease: Option<Lease>, useGateway: bool, useResolved: bool,
                       useRoutes: bool, routers: seq<RaRouter>)

  /** The route request is reached, and nothing stops it before the router is selected. */
  predicate Applies(link: Link) {
    && link.lease.Some? && link.useGateway && link.useResolved
    && !(link.useRoutes && link.lease.value.classless)
    && link.lease.value.router == Some(SENTINEL)
    && link.kernelOk
  }

  /** The next hop an update settles on; the placeholder variant never does without one. */
  function NextHop(link: Link, placeholder: bool): Option<In6> {
    var gw := NetworkdChoice(link.routers);
    if gw.None? && placeholder then Some(PLACEHOLDER) else gw
  }

  function NewRoute(link: Link, gw: In6, address: nat): Route {
    Route(Dhcp4, link.ifindex, Inet, 0, Inet6, gw, address)
  }

  function Stale(routes: set<Route>, ifindex: nat, gw: In6): set<Route> {
    set r | r in routes && Resolved(r, ifindex) && r.gw != gw
  }

  /** The update gets as far as its sweep. */
  predicate Sweeps(link: Link, placeholder: bool) {
    Applies(link) && NextHop(link, placeholder).Some? && link.lease.value.address.Some?
  }

  function Updated(link: Link, routes: set<Route>, placeholder: bool): set<Route> {
    if !Sweeps(link, placeholder) then routes
    else
      var gw := NextHop(link, placeholder).value;
      routes - Stale(routes, link.ifindex, gw) + {NewRoute(link, gw, link.lease.value.address.value)}
  }

  // ---- the sweep ------------------------------------------------------------

  /** All resolved defaults of the link go to one router. */
  ghost predicate AllVia(routes: set<Route>, ifindex: nat, gw: In6) {
    forall r :: r in routes && Resolved(r, ifindex) ==> r.gw == gw
  }

  /** An update that has a next hop leaves exactly that hop on the link and touches no other route. */
  lemma SweepAndFrame(link: Link, routes: set<Route>, placeholder: bool)
    requires Sweeps(link, placeholder)
    ensures var gw := NextHop(link, placeholder).value;
            var after := Updated(link, routes, placeholder);
            && AllVia(after, link.ifindex, gw)
            && (exists r :: r in after && Resolved(r, link.ifindex) && r.gw == gw)
            && (forall r :: !Resolved(r, link.ifindex) ==> (r in after <==> r in routes))
  {
  }

  /** The same in terms of the route's fields and of the link's settings. */
  lemma UpdateTouchesOnly(link: Link, routes: set<Route>, placeholder: bool, r: Route)
    ensures r.source != Dhcp4 || r.ifindex != link.ifindex || r.family != Inet || r.prefixLen != 0 ||
            r.hopFamily != Inet6 ==>
              (r in Updated(link, routes, placeholder) <==> r in routes)
    ensures r in Updated(link, routes, placeholder) && r !in routes ==>
              link.lease.Some? && link.lease.value.address == Some(r.extra)
  {
  }

  /** No lease, a setting off, classless routes in use, another router option, an old kernel: nothing happens. */
  lemma UpdateReturnsEarly(link: Link, routes: set<Route>, placeholder: bool)
    requires || link.lease.None? || !link.useGateway || !link.useResolved || !link.kernelOk
             || (link.useRoutes && link.lease.value.classless) || link.lease.value.router != Some(0xc000000b)
             || link.lease.value.address.None?
             || (!placeholder && forall r :: r in link.routers ==> r.pref.Some? && r.pref.value !in {0, 1, 3})
    ensures Updated(link, routes, placeholder) == routes
  {
    NetworkdChoiceByPreference(link.routers);
  }

  /** In every other case there is a next hop: a router that can be chosen, or fe80::c000:c. */
  lemma UpdateSweeps(link: Link, routes: set<Route>, placeholder: bool)
    requires link.lease.Some? && link.useGateway && link.useResolved && link.kernelOk
    requires !(link.useRoutes && link.lease.value.classless) && link.lease.value.router == Some(0xc000000b)
    requires link.lease.value.address.Some?
    requires placeholder || exists r :: r in link.routers && (r.pref.Some? ==> r.pref.value in {0, 1, 3})
    ensures var hop := if NetworkdChoice(link.routers).Some? then NetworkdChoice(link.routers).value
                       else [0xfe, 0x80, 0, 0, 0, 0, 0, 0, 0, 0, 0, 0, 0xc0, 0x00, 0x00, 0x0c];
            forall r: Route ::
              (r.source == Dhcp4 && r.ifindex == link.ifindex && r.family == Inet && r.prefixLen == 0 &&
               r.hopFamily == Inet6) ==>
              (r in Updated(link, routes, placeholder) <==>
                 r.gw == hop && (r in routes || r.extra == link.lease.value.address.value))
  {
    NetworkdChoiceByPreference(link.routers);
  }

  // ---- runs -----------------------------------------------------------------

  /** Updates of any links in any order, each as the link then is. */
  function Run(routes: set<Route>, links: seq<Link>, placeholder: bool): set<Route>
    decreases |links|
  {
    if links == [] then routes else Run(Updated(links[0], routes, placeholder), links[1..], placeholder)
  }

  predicate SweepsOn(link: Link, ifindex: nat, placeholder: bool) {
    link.ifindex == ifindex && Sweeps(link, placeholder)
  }

  /** The next hop of the latest update of this link that swept. */
  function LastHop(links: seq<Link>, ifindex: nat, placeholder: bool): Option<In6> {
    if links == [] then None
    else
      var n := |links| - 1;
      if SweepsOn(links[n], ifindex, placeholder) then NextHop(links[n], placeholder)
      else LastHop(links[..n], ifindex, placeholder)
  }

  lemma {:induction false} RunSnoc(routes: set<Route>, links: seq<Link>, last: Link, placeholder: bool)
    ensures Run(routes, links + [last], placeholder) == Updated(last, Run(routes, links, placeholder), placeholder)
    decreases |links|
  {
    if links == [] {
      assert [last][1..] == [];
    } else {
      assert (links + [last])[0] == links[0] && (links + [last])[1..] == links[1..] + [last];
      RunSnoc(Updated(links[0], routes, placeholder), links[1..], last, placeholder);
    }
  }

  /** What the resolved defaults of a link are like: as they were, or at least one and all via one hop. */
  ghost predicate Settled(before: set<Route>, after: set<Route>, ifindex: nat, hop: Option<In6>) {
    match hop
    case Some(gw) => AllVia(after, ifindex, gw) && exists r :: r in after && Resolved(r, ifindex) && r.gw == gw
    case None => forall r :: Resolved(r, ifindex) ==> (r in after <==> r in before)
  }

  /** An update of another link, or one that returns early, leaves this link's resolved defaults alone. */
  lemma OtherUpdate(link: Link, routes: set<Route>, ifindex: nat, placeholder: bool)
    requires !SweepsOn(link, ifindex, placeholder)
    ensures forall r :: Resolved(r, ifindex) ==> (r in Updated(link, routes, placeholder) <==> r in routes)
  {
  }

  lemma SettledStep(before: set<Route>, routes: set<Route>, after: set<Route>, ifindex: nat, hop: Option<In6>)
    requires Settled(before, routes, ifindex, hop)
    requires forall r :: Resolved(r, ifindex) ==> (r in after <==> r in routes)
    ensures Settled(before, after, ifindex, hop)
  {
    if hop.Some? {
      var r :| r in routes && Resolved(r, ifindex) && r.gw == hop.value;
      assert r in after;
    }
  }

  /**
   * Every run, with updates of other links and early returns in between: the link's resolved
   * defaults all go to the hop of its latest sweep, and there is one; before any sweep they are
   * untouched.
   */
  lemma {:induction false} RunSettles(routes: set<Route>, links: seq<Link>, ifindex: nat, placeholder: bool)
    ensures Settled(routes, Run(routes, links, placeholder), ifindex, LastHop(links, ifindex, placeholder))
    decreases |links|
  {
    if links != [] {
      var n := |links| - 1;
      var before := Run(routes, links[..n], placeholder);
      assert links == links[..n] + [links[n]];
      RunSnoc(routes, links[..n], links[n], placeholder);
      if SweepsOn(links[n], ifindex, placeholder) {
        SweepAndFrame(links[n], before, placeholder);
      } else {
        RunSettles(routes, links[..n], ifindex, placeholder);
        OtherUpdate(links[n], before, ifindex, placeholder);
        SettledStep(routes, before, Run(routes, links, placeholder), ifindex, LastHop(links, ifindex, placeholder));
      }
    }
  }

  /** The frame of a run: a route that is no updated link's resolved default stays as it was. */
  lemma {:induction false} RunFrame(routes: set<Route>, links: seq<Link>, placeholder: bool, r: Route)
    requires forall i :: 0 <= i < |links| ==> !Resolved(r, links[i].ifindex)
    ensures r in Run(routes, links, placeholder) <==> r in routes
    decreases |links|
  {
    if links != [] {
      RunFrame(Updated(links[0], routes, placeholder), links[1..], placeholder, r);
    }
  }

  lemma {:induction false} LastHopIff(links: seq<Link>, ifindex: nat, placeholder: bool)
    ensures LastHop(links, ifindex, placeholder).Some? <==>
            exists i :: 0 <= i < |links| && SweepsOn(links[i], ifindex, placeholder)
  {
    if links != [] {
      LastHopIff(links[..|links| - 1], ifindex, placeholder);
    }
  }

  /**
   * Without a router the canonical patch returns before its sweep: after every run that starts
   * clean and ends in an update that finds no router, the link has a resolved default, namely that
   * of its last chosen router, iff some earlier update of the link had chosen one.
   */
  lemma DeferralKeepsStaleIff(routes: set<Route>, links: seq<Link>, ifindex: nat)
    requires links != [] && NetworkdChoice(links[|links| - 1].routers).None?
    requires forall r :: r in routes ==> !Resolved(r, ifindex)
    ensures var after, earlier := Run(routes, links, false), links[..|links| - 1];
            && ((exists r :: r in after && Resolved(r, ifindex)) <==>
                  exists i :: 0 <= i < |earlier| && SweepsOn(earlier[i], ifindex, false))
            && Settled(routes, after, ifindex, LastHop(earlier, ifindex, false))
  {
    RunSettles(routes, links, ifindex, false);
    LastHopIff(links[..|links| - 1], ifindex, false);
  }

  /** A link that is served, with the given routers. */
  function Served(ifindex: nat, routers: seq<RaRouter>): Link {
    Link(ifindex, true, Some(Lease(Some(SENTINEL), false, Some(1))), true, true, true, routers)
  }

  /** A router is advertised and then vanishes: its route is still there, and nothing else is wanted. */
  lemma VanishedRouterExample(ifindex: nat, router: In6)
    ensures var after := Run({}, [Served(ifindex, [RaRouter(router, Some(0))]), Served(ifindex, [])], false);
            exists r :: r in after && Resolved(r, ifindex) && r.gw == router
  {
    var first, last := Served(ifindex, [RaRouter(router, Some(0))]), Served(ifindex, []);
    assert Eligible([RaRouter(router, Some(0))]) == [Candidate(router, 1)] + Eligible([]);
    assert BestOf([Candidate(router, 1)]) == Some(Candidate(router, 1));
    assert Eligible([]) == [] && NetworkdChoice(last.routers) == None;
    assert [first, last][..1] == [first] && [first][..0] == [];
    assert LastHop([first], ifindex, false) == Some(router);
    DeferralKeepsStaleIff({}, [first, last], ifindex);
  }

  ghost predicate LastSweep(links: seq<Link>, i: nat, ifindex: nat, placeholder: bool) {
    && i < |links| && SweepsOn(links[i], ifindex, placeholder)
    && forall j :: i < j < |links| ==> !SweepsOn(links[j], ifindex, placeholder)
  }

  lemma {:induction false} LastHopIsLast(links: seq<Link>, ifindex: nat, placeholder: bool) returns (i: nat)
    requires LastHop(links, ifindex, placeholder).Some?
    ensures LastSweep(links, i, ifindex, placeholder)
    ensures LastHop(links, ifindex, placeholder) == NextHop(links[i], placeholder)
  {
    i := |links| - 1;
    if !SweepsOn(links[i], ifindex, placeholder) {
      i := LastHopIsLast(links[..i], ifindex, placeholder);
    }
  }

  /** The canonical patch, in terms of routers: all resolved defaults go to the last router a sweep chose. */
  lemma CanonicalRun(routes: set<Route>, links: seq<Link>, ifindex: nat) returns (i: nat)
    requires LastHop(links, ifindex, false).Some?
    ensures LastSweep(links, i, ifindex, false)
    ensures Settled(routes, Run(routes, links, false), ifindex, NetworkdChoice(links[i].routers))
  {
    RunSettles(routes, links, ifindex, false);
    i := LastHopIsLast(links, ifindex, false);
  }

  /**
   * Placeholder patch, every run: after every update that applies and reads the lease address,
   * router list empty or not, the link's resolved defaults all go to the chosen router or the
   * placeholder, and one of them exists.
   */
  lemma PlaceholderRun(routes: set<Route>, links: seq<Link>, ifindex: nat)
    requires links != []
    requires var last := links[|links| - 1]; last.ifindex == ifindex && Applies(last) && last.lease.value.address.Some?
    ensures Settled(routes, Run(routes, links, true), ifindex, NextHop(links[|links| - 1], true))
  {
    RunSettles(routes, links, ifindex, true);
  }

  /** The first RA after a deferral removes the placeholder. */
  lemma NextRaReplacesPlaceholder(routes: set<Route>, links: seq<Link>, ifindex: nat)
    requires links != []
    requires var last := links[|links| - 1]; last.ifindex == ifindex && Applies(last) && last.lease.value.address.Some?
    requires var gw := NetworkdChoice(links[|links| - 1].routers); gw.Some? && gw.value != PLACEHOLDER
    ensures forall r :: r in Run(routes, links, true) && Resolved(r, ifindex) ==> r.gw != PLACEHOLDER
  {
    PlaceholderRun(routes, links, ifindex);
  }

  // ---- the manager in its own form ------------------------------------------

  class Manager {
    const placeholder: bool
    var routes: set<Route>

    constructor (placeholder: bool, routes: set<Route>)
      ensures this.placeholder == placeholder && this.routes == routes
    {
      this.placeholder, this.routes := placeholder, routes;
    }

    /** Collect first, remove after, so that the set is not changed while it is walked. */
    method DropStale(ifindex: nat, gw: In6)
      modifies this
      ensures routes == old(routes) - Stale(old(routes), ifindex, gw)
    {
      var stale: seq<Route> := [];
      var rest := routes;
      while rest != {}
        invariant rest <= routes && routes == old(routes)
        invariant forall r :: r in stale <==> r in routes - rest && Resolved(r, ifindex) && r.gw != gw
        decreases rest
      {
        var r :| r in rest;
        if Resolved(r, ifindex) && r.gw != gw {
          stale := stale + [r];
        }
        rest := rest - {r};
      }
      var i := 0;
      while i < |stale|
        invariant i <= |stale|
        invariant forall r :: r in routes <==> r in old(routes) && r !in stale[..i]
      {
        routes := routes - {stale[i]};
        assert stale[..i + 1] == stale[..i] + [stale[i]];
        i := i + 1;
      }
      assert stale[..i] == stale;
    }

    method Update(link: Link)
      modifies this
      ensures routes == Updated(link, old(routes), placeholder)
    {
      if link.lease.None? || !link.useGateway || !link.useResolved {
        return;
      }
      if link.useRoutes && link.lease.value.classless {
        return;
      }
      if link.lease.value.router != Some(SENTINEL) || !link.kernelOk {
        return;
      }
      var gw := NetworkdSelect(link.routers);
      if gw.None? {
        if !placeholder {
          return;
        }
        gw := Some(PLACEHOLDER);
      }
      if link.lease.value.address.None? {
        return;
      }
      DropStale(link.ifindex, gw.value);
      routes := routes + {NewRoute(link, gw.value, link.lease.value.address.value)};
    }
  }
}
