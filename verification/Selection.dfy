/**
 * Default-router selection with the preferences of section 2.1 of RFC 4191, as the FreeBSD daemon,
 * the networkd patch and the Linux daemon compute it.
 */
module Selection {
  import opened Prelude
  import opened Inet

  // ---- what two of them are meant to compute --------------------------------

  /** A router with its preference rank: high 2, medium 1, low 0, reserved -1. */
  datatype Candidate = Candidate(addr: In6, rank: int)

  /** Higher rank first, then the numerically lower address. */
  predicate Preferred(a: Candidate, b: Candidate) {
    a.rank > b.rank || (a.rank == b.rank && (a.addr == b.addr || Before(a.addr, b.addr)))
  }

  ghost predicate Optimum(cs: seq<Candidate>, best: Candidate) {
    best in cs && forall c :: c in cs ==> Preferred(best, c)
  }

  lemma PreferredIsTotalOrder(a: Candidate, b: Candidate, c: Candidate)
    ensures Preferred(a, b) || Preferred(b, a)
    ensures Preferred(a, b) && Preferred(b, a) ==> a == b
    ensures Preferred(a, b) && Preferred(b, c) ==> Preferred(a, c)
  {
    BeforeIsStrictTotal(a.addr, b.addr);
    if a.rank == b.rank == c.rank && Before(a.addr, b.addr) && Before(b.addr, c.addr) {
      BeforeTransitive(a.addr, b.addr, c.addr);
    }
  }

  lemma OptimumIsUnique(cs: seq<Candidate>, ds: seq<Candidate>, a: Candidate, b: Candidate)
    requires forall c :: c in cs <==> c in ds
    requires Optimum(cs, a) && Optimum(ds, b)
    ensures a == b
  {
    PreferredIsTotalOrder(a, b, a);
  }

  /** The optimum, computed. */
  function BestOf(cs: seq<Candidate>): Option<Candidate> {
    if cs == [] then None
    else
      var rest := BestOf(cs[1..]);
      if rest.None? || Preferred(cs[0], rest.value) then Some(cs[0]) else rest
  }

  lemma {:induction false} BestOfIsOptimum(cs: seq<Candidate>)
    ensures cs == [] ==> BestOf(cs) == None
    ensures cs != [] ==> BestOf(cs).Some? && Optimum(cs, BestOf(cs).value)
  {
    if cs != [] {
      var rest := BestOf(cs[1..]);
      BestOfIsOptimum(cs[1..]);
      forall c | c in cs
        ensures Preferred(BestOf(cs).value, c)
      {
        PreferredIsTotalOrder(cs[0], cs[0], cs[0]);
        if rest.Some? {
          PreferredIsTotalOrder(cs[0], rest.value, c);
        }
      }
    }
  }

  lemma BestOfSameElements(cs: seq<Candidate>, ds: seq<Candidate>)
    requires forall c :: c in cs <==> c in ds
    ensures BestOf(cs) == BestOf(ds)
  {
    BestOfIsOptimum(cs);
    BestOfIsOptimum(ds);
    assert cs != [] ==> cs[0] in ds;
    assert ds != [] ==> ds[0] in cs;
    if cs != [] {
      OptimumIsUnique(cs, ds, BestOf(cs).value, BestOf(ds).value);
    }
  }

  function AddressOf(c: Option<Candidate>): Option<In6> {
    if c.None? then None else Some(c.value.addr)
  }

  // ---- FreeBSD --------------------------------------------------------------

  /** struct in6_defrouter. */
  datatype DefRouter = DefRouter(ifIndex: nat, flags: Octet, addr: In6)

  /** The two preference bits of the RA flags: 0x08 high, 0x00 medium, 0x18 low, 0x10 reserved. */
  function PrefRank(flags: Octet): (r: int)
    ensures -1 <= r <= 2
  {
    var p := flags & 0x18;
    if p == 0x08 then 2 else if p == 0x00 then 1 else if p == 0x18 then 0 else -1
  }

  function Candidates(list: seq<DefRouter>, ifindex: nat): seq<Candidate> {
    if list == [] then []
    else
      var d := list[0];
      (if d.ifIndex == ifindex then [Candidate(d.addr, PrefRank(d.flags))] else []) + Candidates(list[1..], ifindex)
  }

  lemma {:induction false} CandidatesSnoc(list: seq<DefRouter>, ifindex: nat, k: nat)
    requires k < |list|
    ensures Candidates(list[..k + 1], ifindex) == Candidates(list[..k], ifindex) +
            if list[k].ifIndex == ifindex then [Candidate(list[k].addr, PrefRank(list[k].flags))] else []
  {
    if k == 0 {
      assert list[..1][1..] == [];
    } else {
      assert list[..k + 1][1..] == list[1..][..k] && list[..k][1..] == list[1..][..k - 1];
      CandidatesSnoc(list[1..], ifindex, k - 1);
    }
  }

  lemma {:induction false} CandidatesMember(list: seq<DefRouter>, ifindex: nat, c: Candidate)
    ensures c in Candidates(list, ifindex) <==>
            exists d :: d in list && d.ifIndex == ifindex && c == Candidate(d.addr, PrefRank(d.flags))
  {
    if list != [] {
      CandidatesMember(list[1..], ifindex, c);
      assert list == [list[0]] + list[1..];
    }
  }

  ghost predicate BestSoFar(cs: seq<Candidate>, found: bool, best: In6, rank: int) {
    if found then Optimum(cs, Candidate(best, rank)) else cs == [] && rank == -1
  }

  /** A later candidate replaces the running best exactly when it is strictly preferred. */
  lemma BestExtends(cs: seq<Candidate>, best: Candidate, c: Candidate)
    requires Optimum(cs, best)
    ensures Preferred(best, c) ==> Optimum(cs + [c], best)
    ensures Preferred(c, best) ==> Optimum(cs + [c], c)
  {
    forall d | d in cs + [c]
      ensures Preferred(best, c) ==> Preferred(best, d)
      ensures Preferred(c, best) ==> Preferred(c, d)
    {
      PreferredIsTotalOrder(c, best, d);
      PreferredIsTotalOrder(c, c, c);
    }
  }

  function FreebsdChoice(list: seq<DefRouter>, ifindex: nat): Option<In6> {
    AddressOf(BestOf(Candidates(list, ifindex)))
  }

  /** FreeBSD's `select_router`: the (highest rank, lowest address) router, reserved ranked below low. */
  method FreebsdSelect(list: seq<DefRouter>, ifindex: nat) returns (found: bool, best: In6)
    ensures (if found then Some(best) else None) == FreebsdChoice(list, ifindex)
    ensures found ==> exists rank :: Optimum(Candidates(list, ifindex), Candidate(best, rank))
  {
    found := false;
    best := seq(16, _ => 0);
    var bestRank := -1;
    var i := 0;
    assert list[..0] == [];
    while i < |list|
      invariant i <= |list|
      invariant BestSoFar(Candidates(list[..i], ifindex), found, best, bestRank)
    {
      var dr := list[i];
      ghost var cs := Candidates(list[..i], ifindex);
      CandidatesSnoc(list, ifindex, i);
      i := i + 1;
      if dr.ifIndex != ifindex {
        continue;
      }
      var rank := PrefRank(dr.flags);
      ghost var c := Candidate(dr.addr, rank);
      if found {
        BestExtends(cs, Candidate(best, bestRank), c);
        BeforeIsStrictTotal(dr.addr, best);
      } else {
        BeforeIsStrictTotal(dr.addr, dr.addr);
      }
      if rank < bestRank {
        continue;
      }
      if rank == bestRank && found && !Before(dr.addr, best) {
        continue;
      }
      bestRank, best, found := rank, dr.addr, true;
    }
    assert list[..i] == list;
    ghost var cs := Candidates(list, ifindex);
    BestOfIsOptimum(cs);
    if found {
      OptimumIsUnique(cs, cs, Candidate(best, bestRank), BestOf(cs).value);
    }
  }

  /** The order in which the kernel exports its router list does not matter. */
  lemma FreebsdOrderIndependent(list: seq<DefRouter>, list': seq<DefRouter>, ifindex: nat)
    requires multiset(list) == multiset(list')
    ensures FreebsdChoice(list, ifindex) == FreebsdChoice(list', ifindex)
  {
    assert forall d :: d in list <==> d in multiset(list);
    assert forall d :: d in list' <==> d in multiset(list');
    forall c
      ensures c in Candidates(list, ifindex) <==> c in Candidates(list', ifindex)
    {
      CandidatesMember(list, ifindex, c);
      CandidatesMember(list', ifindex, c);
    }
    BestOfSameElements(Candidates(list, ifindex), Candidates(list', ifindex));
  }

  /**
   * In terms of the RA flags: a router is chosen iff the interface has one, no router of the
   * interface beats it in the order high (0x08), medium (0x00), low (0x18), reserved (0x10), and
   * among equal flags none has a lower address.
   */
  lemma FreebsdChoiceByFlags(list: seq<DefRouter>, ifindex: nat)
    ensures FreebsdChoice(list, ifindex).Some? <==> exists d :: d in list && d.ifIndex == ifindex
    ensures FreebsdChoice(list, ifindex).Some? ==>
              exists d :: d in list && d.ifIndex == ifindex && FreebsdChoice(list, ifindex) == Some(d.addr) &&
                forall e :: e in list && e.ifIndex == ifindex ==>
                  var p, q := d.flags & 0x18, e.flags & 0x18;
                  && (q == 0x08 ==> p == 0x08)
                  && (q == 0x00 ==> p == 0x08 || p == 0x00)
                  && (q == 0x18 ==> p != 0x10)
                  && (p == q ==> !Before(e.addr, d.addr))
  {
    var cs := Candidates(list, ifindex);
    BestOfIsOptimum(cs);
    forall e | e in list && e.ifIndex == ifindex
      ensures Candidate(e.addr, PrefRank(e.flags)) in cs
    {
      CandidatesMember(list, ifindex, Candidate(e.addr, PrefRank(e.flags)));
    }
    if cs != [] {
      var best := BestOf(cs).value;
      CandidatesMember(list, ifindex, best);
      var d :| d in list && d.ifIndex == ifindex && best == Candidate(d.addr, PrefRank(d.flags));
      forall e | e in list && e.ifIndex == ifindex
        ensures var p, q := d.flags & 0x18, e.flags & 0x18;
                && (q == 0x08 ==> p == 0x08)
                && (q == 0x00 ==> p == 0x08 || p == 0x00)
                && (q == 0x18 ==> p != 0x10)
                && (p == q ==> !Before(e.addr, d.addr))
      {
        assert Preferred(best, Candidate(e.addr, PrefRank(e.flags)));
        FourLevels(d.flags);
        FourLevels(e.flags);
        BeforeIsStrictTotal(d.addr, e.addr);
      }
    }
  }

  lemma FourLevels(flags: Octet)
    ensures flags & 0x18 in {0x00, 0x08, 0x10, 0x18}
  {
    var p := flags & 0x18;
    assert p == 0x00 || p == 0x08 || p == 0x10 || p == 0x18;
  }

  // ---- networkd -------------------------------------------------------------

  /** A sender in the router map; `pref` is None when its preference cannot be read. */
  datatype RaRouter = RaRouter(sender: In6, pref: Option<nat>)

  /** SD_NDISC_PREFERENCE_HIGH is 1, MEDIUM 0, LOW 3; anything else is reserved. */
  function NdiscRank(pref: nat): (r: int)
    ensures -1 <= r <= 2
  {
    if pref == 1 then 2 else if pref == 0 then 1 else if pref == 3 then 0 else -1
  }

  function RouterRank(r: RaRouter): int {
    NdiscRank(if r.pref.Some? then r.pref.value else 0)
  }

  /** The routers whose preference is not reserved. */
  function Eligible(routers: seq<RaRouter>): seq<Candidate> {
    if routers == [] then []
    else
      (if RouterRank(routers[0]) >= 0 then [Candidate(routers[0].sender, RouterRank(routers[0]))] else [])
      + Eligible(routers[1..])
  }

  function NetworkdChoice(routers: seq<RaRouter>): Option<In6> {
    AddressOf(BestOf(Eligible(routers)))
  }

  lemma {:induction false} EligibleSnoc(routers: seq<RaRouter>, k: nat)
    requires k < |routers|
    ensures Eligible(routers[..k + 1]) == Eligible(routers[..k]) +
            if RouterRank(routers[k]) >= 0 then [Candidate(routers[k].sender, RouterRank(routers[k]))] else []
  {
    if k == 0 {
      assert routers[..1][1..] == [];
    } else {
      assert routers[..k + 1][1..] == routers[1..][..k] && routers[..k][1..] == routers[1..][..k - 1];
      EligibleSnoc(routers[1..], k - 1);
    }
  }

  lemma {:induction false} EligibleMember(routers: seq<RaRouter>, c: Candidate)
    ensures c in Eligible(routers) <==>
            exists r :: r in routers && RouterRank(r) >= 0 && c == Candidate(r.sender, RouterRank(r))
  {
    if routers != [] {
      EligibleMember(routers[1..], c);
      assert routers == [routers[0]] + routers[1..];
    }
  }

  lemma {:induction false} NothingBeforeZero(a: seq<Octet>)
    ensures !Before(a, seq(|a|, _ => 0))
  {
    if a != [] {
      NothingBeforeZero(a[1..]);
      assert seq(|a|, _ => 0 as Octet)[1..] == seq(|a[1..]|, _ => 0 as Octet);
    }
  }

  /** networkd's selection: the same optimum over the routers whose preference is not reserved. */
  method NetworkdSelect(routers: seq<RaRouter>) returns (r: Option<In6>)
    ensures r == NetworkdChoice(routers)
    ensures r.Some? ==> exists rank :: rank >= 0 && Optimum(Eligible(routers), Candidate(r.value, rank))
  {
    var best: In6 := seq(16, _ => 0);
    var bestRank := -1;
    var i := 0;
    assert routers[..0] == [];
    while i < |routers|
      invariant i <= |routers|
      invariant bestRank < 0 ==> bestRank == -1 && best == seq(16, _ => 0) && Eligible(routers[..i]) == []
      invariant bestRank >= 0 ==> Optimum(Eligible(routers[..i]), Candidate(best, bestRank))
    {
      var sender := routers[i].sender;
      var rank := RouterRank(routers[i]);
      ghost var cs := Eligible(routers[..i]);
      EligibleSnoc(routers, i);
      i := i + 1;
      NothingBeforeZero(sender);
      BeforeIsStrictTotal(sender, sender);
      if bestRank >= 0 {
        BestExtends(cs, Candidate(best, bestRank), Candidate(sender, rank));
        BeforeIsStrictTotal(sender, best);
      }
      if rank < bestRank {
        continue;
      }
      if rank == bestRank && !Before(sender, best) {
        continue;
      }
      bestRank, best := rank, sender;
    }
    assert routers[..i] == routers;
    ghost var cs := Eligible(routers);
    BestOfIsOptimum(cs);
    if bestRank < 0 {
      return None;
    }
    OptimumIsUnique(cs, cs, Candidate(best, bestRank), BestOf(cs).value);
    return Some(best);
  }

  lemma NetworkdOrderIndependent(routers: seq<RaRouter>, routers': seq<RaRouter>)
    requires multiset(routers) == multiset(routers')
    ensures NetworkdChoice(routers) == NetworkdChoice(routers')
  {
    assert forall r :: r in routers <==> r in multiset(routers);
    assert forall r :: r in routers' <==> r in multiset(routers');
    forall c
      ensures c in Eligible(routers) <==> c in Eligible(routers')
    {
      EligibleMember(routers, c);
      EligibleMember(routers', c);
    }
    BestOfSameElements(Eligible(routers), Eligible(routers'));
  }

  /** SD_NDISC_PREFERENCE_MEDIUM is 0, which also stands in for a preference that cannot be read. */
  function ReadPreference(r: RaRouter): nat {
    if r.pref.Some? then r.pref.value else 0
  }

  /**
   * In terms of the preference value: only high (1), medium (0, or unreadable) and low (3) are
   * chosen, in that order, and among equal ones none has a lower address.
   */
  lemma NetworkdChoiceByPreference(routers: seq<RaRouter>)
    ensures NetworkdChoice(routers).Some? <==> exists r :: r in routers && (r.pref.Some? ==> r.pref.value in {0, 1, 3})
    ensures NetworkdChoice(routers).Some? ==>
              exists r :: r in routers && NetworkdChoice(routers) == Some(r.sender) &&
                (r.pref.Some? ==> r.pref.value in {0, 1, 3}) &&
                forall s :: s in routers ==>
                  && (s.pref == Some(1) ==> r.pref == Some(1))
                  && (s.pref == Some(0) || s.pref == None ==> r.pref != Some(3))
                  && (ReadPreference(s) == ReadPreference(r) ==> !Before(s.sender, r.sender))
  {
    var cs := Eligible(routers);
    BestOfIsOptimum(cs);
    forall s | s in routers && RouterRank(s) >= 0
      ensures Candidate(s.sender, RouterRank(s)) in cs
    {
      EligibleMember(routers, Candidate(s.sender, RouterRank(s)));
    }
    if cs != [] {
      var best := BestOf(cs).value;
      EligibleMember(routers, best);
      var r :| r in routers && RouterRank(r) >= 0 && best == Candidate(r.sender, RouterRank(r));
      forall s | s in routers
        ensures s.pref == Some(1) ==> r.pref == Some(1)
        ensures s.pref == Some(0) || s.pref == None ==> r.pref != Some(3)
        ensures ReadPreference(s) == ReadPreference(r) ==> !Before(s.sender, r.sender)
      {
        if RouterRank(s) >= 0 {
          assert Preferred(best, Candidate(s.sender, RouterRank(s)));
        }
        BeforeIsStrictTotal(r.sender, s.sender);
      }
    }
  }

  // ---- agreement ------------------------------------------------------------

  /** The preference field of the RA flags as networkd reads it. */
  function PreferenceField(flags: Octet): nat {
    ((flags & 0x18) >> 3) as nat
  }

  /** The routers of one interface as networkd would hold them. */
  function AsRaRouters(list: seq<DefRouter>, ifindex: nat): seq<RaRouter> {
    if list == [] then []
    else
      (if list[0].ifIndex == ifindex then [RaRouter(list[0].addr, Some(PreferenceField(list[0].flags)))] else [])
      + AsRaRouters(list[1..], ifindex)
  }

  lemma RanksAgree(flags: Octet)
    ensures NdiscRank(PreferenceField(flags)) == PrefRank(flags)
  {
  }

  lemma {:induction false} EligibleAreCandidates(list: seq<DefRouter>, ifindex: nat, c: Candidate)
    ensures c in Eligible(AsRaRouters(list, ifindex)) <==> c in Candidates(list, ifindex) && c.rank >= 0
  {
    if list != [] {
      EligibleAreCandidates(list[1..], ifindex, c);
      RanksAgree(list[0].flags);
      if list[0].ifIndex == ifindex {
        assert AsRaRouters(list, ifindex)[1..] == AsRaRouters(list[1..], ifindex);
      } else {
        assert AsRaRouters(list, ifindex) == AsRaRouters(list[1..], ifindex);
      }
    }
  }

  /** The two loops agree on every list unless the interface has routers and all of them are reserved. */
  lemma SelectionsAgreeIff(list: seq<DefRouter>, ifindex: nat)
    ensures FreebsdChoice(list, ifindex) == NetworkdChoice(AsRaRouters(list, ifindex)) <==>
            Candidates(list, ifindex) == [] || exists c :: c in Candidates(list, ifindex) && c.rank >= 0
  {
    var cs, es := Candidates(list, ifindex), Eligible(AsRaRouters(list, ifindex));
    BestOfIsOptimum(cs);
    BestOfIsOptimum(es);
    forall c
      ensures c in es <==> c in cs && c.rank >= 0
    {
      EligibleAreCandidates(list, ifindex, c);
    }
    assert es != [] ==> es[0] in es;
    if c :| c in cs && c.rank >= 0 {
      assert es != [];
      var best := BestOf(cs).value;
      assert Preferred(best, c);
      assert Optimum(es, best);
      OptimumIsUnique(es, es, best, BestOf(es).value);
    }
  }

  /** FreeBSD accepts a reserved-preference router exactly when the interface has nothing else. */
  lemma FreebsdTakesReservedIff(list: seq<DefRouter>, ifindex: nat)
    ensures (BestOf(Candidates(list, ifindex)).Some? && BestOf(Candidates(list, ifindex)).value.rank == -1) <==>
            Candidates(list, ifindex) != [] && forall c :: c in Candidates(list, ifindex) ==> c.rank == -1
  {
    var cs := Candidates(list, ifindex);
    BestOfIsOptimum(cs);
    forall c | c in cs
      ensures -1 <= c.rank
    {
      CandidatesMember(list, ifindex, c);
    }
  }

  /** One router with the reserved preference: FreeBSD takes it, networkd does not. */
  lemma ReservedOnlyExample(a: In6)
    ensures FreebsdChoice([DefRouter(7, 0x10, a)], 7) == Some(a)
    ensures NetworkdChoice(AsRaRouters([DefRouter(7, 0x10, a)], 7)) == None
  {
    var d := DefRouter(7, 0x10, a);
    var cs, rs := Candidates([d], 7), AsRaRouters([d], 7);
    assert [d][1..] == [];
    assert PrefRank(0x10) == -1 && PreferenceField(0x10) == 2;
    assert cs == [Candidate(a, -1)] + Candidates([], 7) && cs[1..] == [];
    assert rs == [RaRouter(a, Some(2))] + AsRaRouters([], 7) && rs[1..] == [];
    assert Eligible(rs) == [];
    BestOfIsOptimum(cs);
  }

  // ---- Linux ----------------------------------------------------------------

  /** An IPv6 default route on the interface: RTA_GATEWAY and RTA_PREF. */
  datatype DefaultRoute = DefaultRoute(gw: Option<In6>, pref: Option<nat>)

  /** A missing or unknown preference, the reserved one included, counts as medium. */
  function LinuxRank(pref: Option<nat>): nat {
    if pref == Some(1) then 2 else if pref == Some(3) then 0 else 1
  }

  /** Rank first, then whether the neighbour is REACHABLE. */
  datatype Key = Key(rank: nat, reachable: nat)

  predicate KeyLess(a: Key, b: Key) {
    a.rank < b.rank || (a.rank == b.rank && a.reachable < b.reachable)
  }

  function KeyOf(r: DefaultRoute, nud: In6 -> nat): Key
    requires r.gw.Some?
  {
    Key(LinuxRank(r.pref), if nud(r.gw.value) == 0x02 then 1 else 0)
  }

  /** The last gateway route whose key no other exceeds. */
  function LinuxBest(routes: seq<DefaultRoute>, nud: In6 -> nat): (r: Option<DefaultRoute>)
    ensures r.Some? ==> r.value.gw.Some? && r.value in routes
  {
    if routes == [] then None
    else
      var earlier, last := LinuxBest(routes[..|routes| - 1], nud), routes[|routes| - 1];
      if last.gw.Some? && (earlier.None? || !KeyLess(KeyOf(last, nud), KeyOf(earlier.value, nud))) then Some(last)
      else earlier
  }

  ghost predicate Maximal(routes: seq<DefaultRoute>, nud: In6 -> nat, r: DefaultRoute) {
    && r in routes && r.gw.Some?
    && forall s :: s in routes && s.gw.Some? ==> !KeyLess(KeyOf(r, nud), KeyOf(s, nud))
  }

  ghost predicate LastMaximal(routes: seq<DefaultRoute>, nud: In6 -> nat, i: nat) {
    && i < |routes| && Maximal(routes, nud, routes[i])
    && forall j :: i < j < |routes| ==> !Maximal(routes, nud, routes[j])
  }

  lemma {:induction false} LinuxBestIsLastMaximal(routes: seq<DefaultRoute>, nud: In6 -> nat)
    ensures match LinuxBest(routes, nud)
            case Some(r) => exists i: nat :: LastMaximal(routes, nud, i) && routes[i] == r
            case None => forall r :: r in routes ==> r.gw.None?
  {
    if routes != [] {
      var n := |routes| - 1;
      var front, last := routes[..n], routes[n];
      LinuxBestIsLastMaximal(front, nud);
      assert routes == front + [last];
      if LinuxBest(routes, nud).Some? {
        if LinuxBest(front, nud).None? || (last.gw.Some? && LinuxBest(routes, nud) == Some(last) &&
           !KeyLess(KeyOf(last, nud), KeyOf(LinuxBest(front, nud).value, nud))) {
          assert LastMaximal(routes, nud, n);
        } else {
          var i: nat :| LastMaximal(front, nud, i) && front[i] == LinuxBest(front, nud).value;
          assert LastMaximal(routes, nud, i);
        }
      }
    }
  }

  function LinuxChoice(routes: seq<DefaultRoute>, nud: In6 -> nat): Option<In6> {
    var r := LinuxBest(routes, nud);
    if r.None? then None else r.value.gw
  }

  /** The Linux daemon's `select_router`. */
  method LinuxSelect(routes: seq<DefaultRoute>, nud: In6 -> nat) returns (best: Option<In6>)
    ensures best == LinuxChoice(routes, nud)
    ensures best.Some? ==> exists i: nat :: LastMaximal(routes, nud, i) && routes[i].gw == best
  {
    best := None;
    var bestKey: Option<Key> := None;
    var i := 0;
    assert routes[..0] == [];
    while i < |routes|
      invariant i <= |routes|
      invariant best == LinuxChoice(routes[..i], nud)
      invariant bestKey == if best.None? then None else Some(KeyOf(LinuxBest(routes[..i], nud).value, nud))
    {
      var r := routes[i];
      assert routes[..i + 1][..i] == routes[..i];
      i := i + 1;
      if r.gw.None? {
        continue;
      }
      var key := Key(LinuxRank(r.pref), if nud(r.gw.value) == 0x02 then 1 else 0);
      if bestKey.None? || !KeyLess(key, bestKey.value) {
        best, bestKey := r.gw, Some(key);
      }
    }
    assert routes[..i] == routes;
    LinuxBestIsLastMaximal(routes, nud);
  }

  lemma MovedToEnd(routes: seq<DefaultRoute>, i: nat)
    requires i < |routes|
    ensures multiset(routes[..i] + routes[i + 1..] + [routes[i]]) == multiset(routes)
  {
    assert routes == routes[..i] + [routes[i]] + routes[i + 1..];
  }

  lemma SameMembers(a: seq<DefaultRoute>, b: seq<DefaultRoute>)
    requires multiset(a) == multiset(b)
    ensures forall r :: r in a <==> r in b
  {
    assert forall r :: r in a <==> r in multiset(a);
    assert forall r :: r in b <==> r in multiset(b);
  }

  /** A maximal route that comes last is the one chosen. */
  lemma LastMaximalWins(front: seq<DefaultRoute>, r: DefaultRoute, nud: In6 -> nat)
    requires Maximal(front + [r], nud, r)
    ensures LinuxChoice(front + [r], nud) == r.gw
  {
  }

  /** For the three values RFC 4191 defines, Linux and networkd rank alike; Linux takes the rest for medium. */
  lemma RanksOfValidPreferences(pref: nat)
    ensures pref in {0, 1, 3} ==> LinuxRank(Some(pref)) == NdiscRank(pref)
    ensures pref !in {0, 1, 3} ==> LinuxRank(Some(pref)) == LinuxRank(None) == NdiscRank(0) && NdiscRank(pref) < 0
  {
  }

  /**
   * In terms of RTA_PREF: a high route (1) is beaten only by a high one, a low one (3) is chosen only
   * when every gateway route is low, and among equal preferences a REACHABLE router beats the others.
   */
  lemma LinuxChoiceByPreference(routes: seq<DefaultRoute>, nud: In6 -> nat)
    ensures LinuxChoice(routes, nud).Some? <==> exists r :: r in routes && r.gw.Some?
    ensures LinuxChoice(routes, nud).Some? ==>
              exists r :: r in routes && r.gw.Some? && LinuxChoice(routes, nud) == r.gw &&
                forall s :: s in routes && s.gw.Some? ==>
                  && (s.pref == Some(1) ==> r.pref == Some(1))
                  && (r.pref == Some(3) ==> s.pref == Some(3))
                  && (s.pref == r.pref && nud(s.gw.value) == 0x02 ==> nud(r.gw.value) == 0x02)
  {
    LinuxBestIsLastMaximal(routes, nud);
    if LinuxBest(routes, nud).Some? {
      var r := LinuxBest(routes, nud).value;
      assert Maximal(routes, nud, r);
      assert forall s :: s in routes && s.gw.Some? ==> !KeyLess(KeyOf(r, nud), KeyOf(s, nud));
    }
  }

  /** Two routers of equal preference and reachability: the choice is whichever is dumped last. */
  lemma LinuxOrderMattersExample(a: In6, b: In6, pref: Option<nat>, nud: In6 -> nat)
    requires a != b && (nud(a) == 0x02 <==> nud(b) == 0x02)
    ensures var x, y := DefaultRoute(Some(a), pref), DefaultRoute(Some(b), pref);
            LinuxChoice([x, y], nud) == Some(b) && LinuxChoice([y, x], nud) == Some(a)
  {
    var x, y := DefaultRoute(Some(a), pref), DefaultRoute(Some(b), pref);
    assert [x, y][..1] == [x] && [y, x][..1] == [y] && [x][..0] == [] && [y][..0] == [];
    assert LinuxBest([x], nud) == Some(x) && LinuxBest([y], nud) == Some(y);
  }

  /**
   * Unlike the other two, the Linux choice depends on dump order: it is the same for every order
   * exactly when all routers of maximal (preference, REACHABLE) share one gateway.
   */
  lemma LinuxOrderIndependentIff(routes: seq<DefaultRoute>, nud: In6 -> nat)
    ensures (forall other :: multiset(other) == multiset(routes) ==>
               LinuxChoice(other, nud) == LinuxChoice(routes, nud))
            <==> (forall r, s :: Maximal(routes, nud, r) && Maximal(routes, nud, s) ==> r.gw == s.gw)
  {
    LinuxBestIsLastMaximal(routes, nud);
    if forall other :: multiset(other) == multiset(routes) ==> LinuxChoice(other, nud) == LinuxChoice(routes, nud) {
      forall r | Maximal(routes, nud, r)
        ensures r.gw == LinuxChoice(routes, nud)
      {
        var i :| 0 <= i < |routes| && routes[i] == r;
        var front := routes[..i] + routes[i + 1..];
        MovedToEnd(routes, i);
        SameMembers(front + [r], routes);
        LastMaximalWins(front, r, nud);
        assert multiset(front + [r]) == multiset(routes);
      }
    }
    if forall r, s :: Maximal(routes, nud, r) && Maximal(routes, nud, s) ==> r.gw == s.gw {
      forall other | multiset(other) == multiset(routes)
        ensures LinuxChoice(other, nud) == LinuxChoice(routes, nud)
      {
        SameMembers(other, routes);
        LinuxBestIsLastMaximal(other, nud);
        if LinuxBest(other, nud).Some? {
          assert Maximal(other, nud, LinuxBest(other, nud).value);
          assert Maximal(routes, nud, LinuxBest(other, nud).value);
        }
      }
    }
  }
}
