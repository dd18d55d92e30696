/** The FreeBSD daemon on a FIB with a single IPv4 default slot, and its two sentinel gates. */
module FreebsdGate {
  import opened Prelude
  import opened Inet
  import opened Selection
  import opened RouteSocket

  // ---- the kernel's default slot --------------------------------------------

  datatype Hop = Hop4(addr: nat) | Hop6(via: In6)

  datatype Kind = Add | Change | Del

  datatype Result = Ok | Eexist | Einval | Esrch | Refused

  /** RTM_ADD, RTM_CHANGE and RTM_DELETE on the only default slot; `refuse` stands for any other error. */
  function KernelReply(slot: Option<Hop>, kind: Kind, refuse: bool): Result {
    if refuse then Refused
    else match kind
      case Add => if slot.None? then Ok else if slot.value.Hop4? then Einval else Eexist
      case Change => if slot.None? then Esrch else Ok
      case Del => if slot.None? then Esrch else Ok
  }

  function KernelSlot(slot: Option<Hop>, kind: Kind, gw: In6, refuse: bool): Option<Hop> {
    if KernelReply(slot, kind, refuse) != Ok then slot else if kind.Del? then None else Some(Hop6(gw))
  }

  // ---- state and steps ------------------------------------------------------

  /** The slot, the daemon's memory of its route, and how many routing messages it has written. */
  datatype State = State(slot: Option<Hop>, installed: Option<In6>, messages: nat)

  function Send(s: State, kind: Kind, gw: In6, refuse: bool): State {
    s.(slot := KernelSlot(s.slot, kind, gw, refuse), messages := s.messages + 1)
  }

  function Installed(s: State, gw: In6, refuse: bool): State {
    if s.installed == Some(gw) then s
    else if s.installed.Some? then
      var s1 := Send(s, Change, gw, refuse);
      if KernelReply(s.slot, Change, refuse) == Ok then s1.(installed := Some(gw)) else s1
    else
      var s1 := Send(s, Add, gw, refuse);
      match KernelReply(s.slot, Add, refuse)
      case Ok => s1.(installed := Some(gw))
      case Eexist =>
        var s2 := Send(s1, Change, gw, refuse);
        if KernelReply(s1.slot, Change, refuse) == Ok then s2.(installed := Some(gw)) else s2
      case Einval =>
        var s2 := Send(s1, Change, gw, refuse);
        if KernelReply(s1.slot, Change, refuse) == Ok then s2.(installed := Some(gw)) else s2
      case Esrch => s1
      case Refused => s1
  }

  function Withdrawn(s: State, refuse: bool): State {
    if s.installed.None? then s else Send(s, Del, s.installed.value, refuse).(installed := None)
  }

  /** No gate, the state file kept by the DHCP hook, or the FIB itself. */
  datatype Gate = Always | StateFile | Fib

  /** What a reconcile reads: interface, state file, router list and the statically configured default. */
  datatype Reading = Reading(ifindex: nat, fileOpen: bool, routers: seq<DefRouter>, fallback: Option<In6>)

  predicate GateOpen(g: Gate, s: State, r: Reading) {
    match g
    case Always => true
    case StateFile => r.fileOpen
    case Fib => s.slot == Some(Hop4(SENTINEL))
  }

  /** The advertised routers first; the static default only when there are none. */
  function NextHop(r: Reading): Option<In6> {
    var ra := FreebsdChoice(r.routers, r.ifindex);
    if ra.Some? then ra else r.fallback
  }

  function Reconciled(g: Gate, s: State, r: Reading, refuse: bool): State {
    if r.ifindex == 0 then s.(installed := None)
    else if !GateOpen(g, s, r) || NextHop(r).None? then Withdrawn(s, refuse)
    else Installed(s, NextHop(r).value, refuse)
  }

  /** One wakeup: what is read, and whether the kernel refuses the messages it brings about. */
  datatype Round = Round(reading: Reading, refuse: bool)

  function Rounds(g: Gate, s: State, rounds: seq<Round>): State
    decreases |rounds|
  {
    if rounds == [] then s else Rounds(g, Reconciled(g, s, rounds[0].reading, rounds[0].refuse), rounds[1..])
  }

  /** The interface is there and, for the state-file gate, so is the sentinel. */
  predicate HeldOpen(g: Gate, r: Reading) {
    r.ifindex != 0 && (g.StateFile? ==> r.fileOpen)
  }

  // ---- what an installation achieves ----------------------------------------

  /** The route is in place afterwards iff the shadow is not wrong about it and a change has something to change. */
  lemma InstallReachesIff(s: State, gw: In6)
    ensures Installed(s, gw, false).slot == Some(Hop6(gw)) <==>
            && (s.installed == Some(gw) ==> s.slot == Some(Hop6(gw)))
            && (s.installed.Some? && s.installed != Some(gw) ==> s.slot.Some?)
  {
  }

  /**
   * A default flushed behind the daemon's back stays missing over all rounds that find some router:
   * change finds nothing, and add is never tried again.
   */
  lemma {:induction false} FlushedRouteStaysMissing(s: State, g: Gate, rounds: seq<Round>)
    requires s.slot.None? && s.installed.Some? && !g.Fib?
    requires forall i :: 0 <= i < |rounds| ==> HeldOpen(g, rounds[i].reading) && NextHop(rounds[i].reading).Some?
    ensures Rounds(g, s, rounds).slot.None? && Rounds(g, s, rounds).installed == s.installed
    decreases |rounds|
  {
    if rounds != [] {
      FlushedRouteStaysMissing(Reconciled(g, s, rounds[0].reading, rounds[0].refuse), g, rounds[1..]);
    }
  }

  // ---- the state-file gate --------------------------------------------------

  /** Every round holds the gate open and settles on the same router, whatever else it reads. */
  ghost predicate Steady(g: Gate, rounds: seq<Round>, gw: In6) {
    forall i :: 0 <= i < |rounds| ==> HeldOpen(g, rounds[i].reading) && NextHop(rounds[i].reading) == Some(gw)
  }

  lemma {:induction false} SteadyWhenInPlace(g: Gate, s: State, rounds: seq<Round>, gw: In6)
    requires !g.Fib? && Steady(g, rounds, gw)
    requires s.slot == Some(Hop6(gw)) && s.installed == Some(gw)
    ensures Rounds(g, s, rounds) == s
    decreases |rounds|
  {
    if rounds != [] {
      SteadyWhenInPlace(g, s, rounds[1..], gw);
    }
  }

  /**
   * Gate held open and the choice unchanged: from any slot, once one installation succeeds, every
   * number of reconciles keeps the router, with no message after that first one.
   */
  lemma StateFileGateIsSteady(g: Gate, slot: Option<Hop>, messages: nat, rounds: seq<Round>, gw: In6)
    requires !g.Fib? && Steady(g, rounds, gw) && rounds != [] && !rounds[0].refuse
    ensures var s0 := State(slot, None, messages);
            var s := Rounds(g, s0, rounds);
            && s.slot == Some(Hop6(gw))
            && s.installed == Some(gw)
            && s.messages == messages + if slot.None? then 1 else 2
  {
    SteadyWhenInPlace(g, Reconciled(g, State(slot, None, messages), rounds[0].reading, false), rounds[1..], gw);
  }

  /** The shadow is right, or there is none. */
  predicate Coherent(s: State) {
    s.installed.Some? ==> s.slot == Some(Hop6(s.installed.value))
  }

  /** The router may change from round to round: the default follows, in one message per change once installed. */
  lemma {:induction false} DefaultFollowsRouter(g: Gate, s: State, rounds: seq<Round>)
    requires !g.Fib? && Coherent(s) && rounds != []
    requires forall i :: 0 <= i < |rounds| ==>
               HeldOpen(g, rounds[i].reading) && NextHop(rounds[i].reading).Some? && !rounds[i].refuse
    ensures var gw, s' := NextHop(rounds[|rounds| - 1].reading), Rounds(g, s, rounds);
            && Coherent(s') && s'.installed == gw
            && (|rounds| == 1 && s.installed.Some? ==> s'.messages == s.messages + if s.installed == gw then 0 else 1)
    decreases |rounds|
  {
    var s1 := Reconciled(g, s, rounds[0].reading, false);
    if |rounds| > 1 {
      DefaultFollowsRouter(g, s1, rounds[1..]);
    } else {
      assert rounds[1..] == [];
    }
  }

  /** A refused message changes neither the slot nor what the daemon believes it has installed. */
  lemma RefusalChangesNothing(g: Gate, s: State, r: Reading)
    requires !g.Fib? && HeldOpen(g, r) && NextHop(r).Some?
    ensures var s' := Reconciled(g, s, r, true);
            && s'.slot == s.slot && s'.installed == s.installed
            && s'.messages == s.messages + if s.installed == NextHop(r) then 0 else 1
  {
  }

  /** After a start and one successful reconcile, a flush is never repaired. */
  lemma FlushAfterInstallExample(g: Gate, slot: Option<Hop>, first: Round, later: seq<Round>, gw: In6)
    requires !g.Fib? && Steady(g, [first] + later, gw) && !first.refuse
    ensures var s1 := Rounds(g, State(slot, None, 0), [first]);
            s1.slot == Some(Hop6(gw)) && Rounds(g, s1.(slot := None), later).slot == None
  {
    assert ([first] + later)[0] == first;
    StateFileGateIsSteady(g, slot, 0, [first], gw);
    assert forall i :: 0 <= i < |later| ==> later[i] == ([first] + later)[i + 1];
    FlushedRouteStaysMissing(Rounds(g, State(slot, None, 0), [first]).(slot := None), g, later);
  }

  // ---- ceasing --------------------------------------------------------------

  /** A reconcile that must not have a route: its gate file says so, or there is nowhere to route to. */
  predicate MustCease(g: Gate, r: Reading) {
    || (g.StateFile? && !r.fileOpen)
    || ((forall d :: d in r.routers ==> d.ifIndex != r.ifindex) && r.fallback.None?)
  }

  lemma NoRouterNoHop(r: Reading)
    requires (forall d :: d in r.routers ==> d.ifIndex != r.ifindex) && r.fallback.None?
    ensures NextHop(r) == None
  {
    FreebsdChoiceByFlags(r.routers, r.ifindex);
  }

  /** Then a route the daemon knows of is deleted and forgotten, and otherwise nothing is sent. */
  lemma CeasingWithdraws(g: Gate, s: State, r: Reading, refuse: bool)
    requires r.ifindex != 0 && MustCease(g, r)
    ensures var s' := Reconciled(g, s, r, refuse);
            && s'.installed == None
            && (s.installed.Some? && !refuse ==> s'.slot == None)
            && (s.installed.Some? && refuse ==> s'.slot == s.slot)
            && (s.installed.None? ==> s' == s)
  {
    if (forall d :: d in r.routers ==> d.ifIndex != r.ifindex) && r.fallback.None? {
      NoRouterNoHop(r);
    }
  }

  /** While that lasts no round installs, from a fresh start not even a message is sent. */
  lemma {:induction false} NothingInstalledWhileCeased(g: Gate, s: State, rounds: seq<Round>)
    requires forall i :: 0 <= i < |rounds| ==> rounds[i].reading.ifindex != 0 && MustCease(g, rounds[i].reading)
    ensures var s' := Rounds(g, s, rounds);
            && (s.installed.None? ==> s' == s)
            && (s.installed.Some? && rounds != [] ==>
                  s'.installed == None && s'.slot == if rounds[0].refuse then s.slot else None)
    decreases |rounds|
  {
    if rounds != [] {
      CeasingWithdraws(g, s, rounds[0].reading, rounds[0].refuse);
      NothingInstalledWhileCeased(g, Reconciled(g, s, rounds[0].reading, rounds[0].refuse), rounds[1..]);
    }
  }

  /** The FIB gate, while the default is not 192.0.0.11: the same. */
  lemma ForeignDefaultShutsFibGate(s: State, r: Reading, refuse: bool)
    requires r.ifindex != 0 && s.slot != Some(Hop4(0xc000000b))
    ensures var s' := Reconciled(Fib, s, r, refuse);
            && s'.installed == None
            && (s.installed.None? ==> s' == s)
            && (s.installed.Some? && !refuse ==> s'.slot == None)
  {
  }

  /** The interface is gone, and its routes with it: the daemon only forgets. */
  lemma GoneForgets(g: Gate, s: State, r: Reading, refuse: bool)
    requires r.ifindex == 0
    ensures Reconciled(g, s, r, refuse) == State(s.slot, None, s.messages)
  {
  }

  /** Routers advertised on the interface come before the static default, which serves only without them. */
  lemma AdvertisedBeforeStatic(r: Reading)
    ensures (exists d :: d in r.routers && d.ifIndex == r.ifindex) ==>
              exists d :: d in r.routers && d.ifIndex == r.ifindex && NextHop(r) == Some(d.addr)
    ensures (forall d :: d in r.routers ==> d.ifIndex != r.ifindex) ==> NextHop(r) == r.fallback
  {
    FreebsdChoiceByFlags(r.routers, r.ifindex);
  }

  // ---- the FIB gate ---------------------------------------------------------

  lemma {:induction false} ShutStaysShut(s: State, rounds: seq<Round>)
    requires s.slot.None? && s.installed.None?
    ensures Rounds(Fib, s, rounds) == s
    decreases |rounds|
  {
    if rounds != [] {
      ShutStaysShut(s, rounds[1..]);
    }
  }

  /**
   * Taking over the sentinel route erases the gate: one reconcile that finds a router installs, the
   * next withdraws, and whatever any later one reads there is no default at all.
   */
  lemma FibGateErasesItself(messages: nat, rounds: seq<Round>)
    requires rounds != [] && rounds[0].reading.ifindex != 0 && !rounds[0].refuse && NextHop(rounds[0].reading).Some?
    requires |rounds| >= 2 ==> rounds[1].reading.ifindex != 0 && !rounds[1].refuse
    ensures var s0 := State(Some(Hop4(SENTINEL)), None, messages);
            && Rounds(Fib, s0, rounds[..1]).slot == Some(Hop6(NextHop(rounds[0].reading).value))
            && (|rounds| >= 2 ==> Rounds(Fib, s0, rounds).slot == None && Rounds(Fib, s0, rounds).installed == None)
  {
    var s0 := State(Some(Hop4(SENTINEL)), None, messages);
    var s1 := Reconciled(Fib, s0, rounds[0].reading, false);
    assert Rounds(Fib, s0, rounds[..1]) == s1;
    if |rounds| >= 2 {
      var s2 := Reconciled(Fib, s1, rounds[1].reading, false);
      assert Rounds(Fib, s0, rounds) == Rounds(Fib, s1, rounds[1..]) == Rounds(Fib, s2, rounds[1..][1..]);
      ShutStaysShut(s2, rounds[1..][1..]);
    }
  }

  // ---- the daemon in its own form -------------------------------------------

  /** A FIB row for `static_default_router`. */
  datatype FibRow = FibRow(staticGateway: bool, ifindex: nat, dst: Option<In6>, gw: Option<In6>)

  predicate StaticDefault(r: FibRow, ifindex: nat) {
    r.ifindex == ifindex && r.staticGateway && r.dst == Some(Zeros(16)) && r.gw.Some?
  }

  /** RTF_STATIC and RTF_GATEWAY, on the interface, to the unspecified address. */
  lemma StaticDefaultFields(r: FibRow, ifindex: nat)
    ensures StaticDefault(r, ifindex) <==>
              r.staticGateway && r.ifindex == ifindex && r.gw.Some? &&
              r.dst == Some([0, 0, 0, 0, 0, 0, 0, 0, 0, 0, 0, 0, 0, 0, 0, 0])
  {
    assert Zeros(16) == [0, 0, 0, 0, 0, 0, 0, 0, 0, 0, 0, 0, 0, 0, 0, 0];
  }

  function FirstStatic(rows: seq<FibRow>, ifindex: nat): Option<In6> {
    if rows == [] then None
    else if StaticDefault(rows[0], ifindex) then Some(StripScope(rows[0].gw.value))
    else FirstStatic(rows[1..], ifindex)
  }

  /** The first static IPv6 default on the interface, its scope octets cleared. */
  method StaticDefaultRouter(rows: seq<FibRow>, ifindex: nat) returns (gw: Option<In6>)
    ensures gw == FirstStatic(rows, ifindex)
    ensures gw.None? <==> forall i :: 0 <= i < |rows| ==> !StaticDefault(rows[i], ifindex)
    ensures gw.Some? ==> exists i :: 0 <= i < |rows| && StaticDefault(rows[i], ifindex) &&
                                     gw.value == StripScope(rows[i].gw.value) &&
                                     forall j :: 0 <= j < i ==> !StaticDefault(rows[j], ifindex)
  {
    assert rows[0..] == rows;
    for i := 0 to |rows|
      invariant FirstStatic(rows[i..], ifindex) == FirstStatic(rows, ifindex)
      invariant forall j :: 0 <= j < i ==> !StaticDefault(rows[j], ifindex)
    {
      assert rows[i..][1..] == rows[i + 1..];
      if StaticDefault(rows[i], ifindex) {
        return Some(StripScope(rows[i].gw.value));
      }
    }
    return None;
  }

  class Daemon {
    const gate: Gate
    var slot: Option<Hop>
    var routeInstalled: bool
    var installedGw: In6
    var messages: nat

    ghost function Now(): State
      reads this
    {
      State(slot, if routeInstalled then Some(installedGw) else None, messages)
    }

    constructor (gate: Gate, slot: Option<Hop>)
      ensures this.gate == gate && Now() == State(slot, None, 0)
    {
      this.gate, this.slot, this.routeInstalled, this.messages := gate, slot, false, 0;
      this.installedGw := Zeros(16);
    }

    method RouteMessage(kind: Kind, gw: In6, refuse: bool) returns (reply: Result)
      modifies this`slot, this`messages
      ensures reply == KernelReply(old(slot), kind, refuse)
      ensures Now() == Send(old(Now()), kind, gw, refuse)
    {
      reply := KernelReply(slot, kind, refuse);
      slot := KernelSlot(slot, kind, gw, refuse);
      messages := messages + 1;
    }

    method Install(gw: In6, refuse: bool)
      modifies this
      ensures Now() == Installed(old(Now()), gw, refuse)
    {
      if routeInstalled && installedGw == gw {
        return;
      }
      var r := RouteMessage(if routeInstalled then Change else Add, gw, refuse);
      if !routeInstalled && (r.Eexist? || r.Einval?) {
        r := RouteMessage(Change, gw, refuse);
      }
      if r != Ok {
        return;
      }
      routeInstalled := true;
      installedGw := gw;
    }

    method Withdraw(refuse: bool)
      modifies this
      ensures Now() == Withdrawn(old(Now()), refuse)
    {
      if !routeInstalled {
        return;
      }
      var r := RouteMessage(Del, installedGw, refuse);
      routeInstalled := false;
    }

    method Reconcile(ifindex: nat, fileOpen: bool, routers: seq<DefRouter>, rows: seq<FibRow>, refuse: bool)
      modifies this
      ensures Now() == Reconciled(gate, old(Now()),
                                  Reading(ifindex, fileOpen, routers, FirstStatic(rows, ifindex)), refuse)
    {
      if ifindex == 0 {
        routeInstalled := false;
        return;
      }
      if (gate.StateFile? && !fileOpen) || (gate.Fib? && slot != Some(Hop4(SENTINEL))) {
        Withdraw(refuse);
        return;
      }
      var found, gw := FreebsdSelect(routers, ifindex);
      if found {
        Install(gw, refuse);
        return;
      }
      var fallback := StaticDefaultRouter(rows, ifindex);
      if fallback.Some? {
        Install(fallback.value, refuse);
      } else {
        Withdraw(refuse);
      }
    }
  }
}
