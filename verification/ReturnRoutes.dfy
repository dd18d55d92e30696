/**
 * The return-route daemon as a state machine. Every handler is a sequence of micro-operations on
 * the daemon's memory, the kernel's proto-149 /32 table and the disk, so that the process may die
 * between any two of them.
 */
module ReturnRoutes {
  import opened Prelude
  import opened Inet
  import opened Text
  import opened NextHop
  import opened StateFile

  const GUA_PROBE_DELAY := 15

  // ---- state ----------------------------------------------------------------

  datatype Host = Host(iface: string, ip4: string, nh: Option<In6>, probeAt: Option<int>)

  /** A proto-149 /32: outgoing interface and IPv6 next hop. */
  datatype Route = Route(oif: nat, via: In6)

  /** Memory (`hosts`), kernel (`routes`, keyed by the /32) and disk (`state`, `tmp`). */
  datatype World = World(hosts: Dict<string, Host>, routes: map<string, Route>, state: Option<string>,
                         tmp: Option<string>)

  const FRESH_WORLD := World(EmptyDict(), map[], None, None)

  /** What one handler call meets: a kernel reading, the monotonic clock, and which calls fail. */
  datatype Env = Env(net: Net, now: int, installOk: bool, deleteOk: bool, diskFailsAt: Option<nat>)

  ghost predicate HeldBy(hosts: map<string, Host>, ip4: string, m: string) {
    m in hosts && hosts[m].ip4 == ip4
  }

  ghost predicate Held(hosts: map<string, Host>, ip4: string) {
    exists m :: HeldBy(hosts, ip4, m)
  }

  /** Every route is for an address that some host holds. */
  ghost predicate Tracked(w: World) {
    forall ip4 :: ip4 in w.routes ==> Held(w.hosts.vals, ip4)
  }

  function RouteFor(w: World, ip4: string): Option<Route> {
    MapGet(w.routes, ip4)
  }

  // ---- micro-operations -----------------------------------------------------

  datatype Op =
    | Withdraw(ip4: string, ok: bool)
    | Install(ip4: string, route: Route, ok: bool)
    | Flush(ips: set<string>)
    | Track(mac: string, host: Host)
    | Untrack(mac: string)
    | Arm(mac: string, at: int)
    | Disarm(mac: string)
    | Kick(mac: string, gua: In6, at: int, best: Option<In6>)
    | Record(mac: string, nh: In6)
    | Reload(row: Row, at: int)
    | TmpOpen
    | TmpWrite(row: Row)
    | Rename
    | Forget

  /** The record `restore` makes of a row. */
  function RestoredHost(r: Row, now: int): Host {
    Host(r.iface, r.ip4, None, Some(now + GUA_PROBE_DELAY))
  }

  function SetProbe(w: World, mac: string, p: Option<int>): World {
    if mac in w.hosts.vals then w.(hosts := Put(w.hosts, mac, w.hosts.vals[mac].(probeAt := p))) else w
  }

  function Apply(op: Op, w: World): World {
    match op
    case Withdraw(ip4, ok) => if ok then w.(routes := w.routes - {ip4}) else w
    case Install(ip4, route, ok) => if ok then w.(routes := w.routes[ip4 := route]) else w
    case Flush(ips) => w.(routes := w.routes - ips)
    case Track(mac, host) => w.(hosts := Put(w.hosts, mac, host))
    case Untrack(mac) => w.(hosts := Remove(w.hosts, mac))
    case Arm(mac, at) => SetProbe(w, mac, Some(at + GUA_PROBE_DELAY))
    case Disarm(mac) => SetProbe(w, mac, None)
    case Kick(mac, _, _, _) => SetProbe(w, mac, None)
    case Record(mac, nh) =>
      if mac in w.hosts.vals then w.(hosts := Put(w.hosts, mac, w.hosts.vals[mac].(nh := Some(nh)))) else w
    case Reload(row, at) => w.(hosts := Put(w.hosts, row.mac, RestoredHost(row, at)))
    case TmpOpen => w.(tmp := Some(""))
    case TmpWrite(row) => if w.tmp.Some? then w.(tmp := Some(w.tmp.value + RowText(row))) else w
    case Rename => if w.tmp.Some? then w.(state := w.tmp, tmp := None) else w
    case Forget => w.(hosts := EmptyDict())
  }

  function ApplyAll(ops: seq<Op>, w: World): World {
    if ops == [] then w else ApplyAll(ops[1..], Apply(ops[0], w))
  }

  lemma {:induction false} ApplyAllConcat(a: seq<Op>, b: seq<Op>, w: World)
    ensures ApplyAll(a + b, w) == ApplyAll(b, ApplyAll(a, w))
  {
    if a == [] {
      assert a + b == b;
    } else {
      assert (a + b)[0] == a[0] && (a + b)[1..] == a[1..] + b;
      ApplyAllConcat(a[1..], b, Apply(a[0], w));
    }
  }

  lemma ApplyOne(op: Op, w: World)
    ensures ApplyAll([op], w) == Apply(op, w)
  {
  }

  lemma ApplyCons(op: Op, rest: seq<Op>, w: World)
    ensures ApplyAll([op] + rest, w) == ApplyAll(rest, Apply(op, w))
  {
  }

  lemma ApplyTwo(a: Op, b: Op, w: World)
    ensures ApplyAll([a, b], w) == Apply(b, Apply(a, w))
  {
    assert [a, b] == [a] + [b];
    ApplyCons(a, [b], w);
    ApplyOne(b, Apply(a, w));
  }

  lemma ApplySnoc(ops: seq<Op>, op: Op, w: World)
    ensures ApplyAll(ops + [op], w) == Apply(op, ApplyAll(ops, w))
  {
    ApplyAllConcat(ops, [op], w);
    ApplyOne(op, ApplyAll(ops, w));
  }

  // ---- persistence ----------------------------------------------------------

  function RowOf(mac: string, h: Host): Row {
    Row(mac, h.iface, h.ip4)
  }

  function RowsOf(hosts: Dict<string, Host>): (rows: seq<Row>)
    ensures |rows| == |hosts.keys|
    ensures forall i :: 0 <= i < |rows| ==> rows[i] == RowOf(hosts.keys[i], hosts.vals[hosts.keys[i]])
  {
    seq(|hosts.keys|, i requires 0 <= i < |hosts.keys| => RowOf(hosts.keys[i], hosts.vals[hosts.keys[i]]))
  }

  function WriteOps(rows: seq<Row>): seq<Op> {
    if rows == [] then [] else [TmpWrite(rows[0])] + WriteOps(rows[1..])
  }

  /** Write the whole table to the temporary file, then rename it over the state file. */
  function FullPersistOps(hosts: Dict<string, Host>): seq<Op> {
    [TmpOpen] + WriteOps(RowsOf(hosts)) + [Rename]
  }

  /** An OSError abandons the write where it strikes and is only logged. */
  function PersistOps(hosts: Dict<string, Host>, env: Env): seq<Op> {
    var all := FullPersistOps(hosts);
    if env.diskFailsAt.Some? && env.diskFailsAt.value < |all| then all[..env.diskFailsAt.value] else all
  }

  function RestoreOps(rows: seq<Row>, live: Option<set<(string, string)>>, now: int): seq<Op> {
    if rows == [] then []
    else
      (if Kept(rows[0], live) then [Reload(rows[0], now)] else []) + RestoreOps(rows[1..], live, now)
  }

  function StateRows(state: Option<string>): seq<Row> {
    if state.None? then [] else ParseRows(state.value)
  }

  /** A new process: empty memory, then the state file minus the leases dnsmasq has dropped. */
  function BootOps(w: World, now: int, leaseFile: Option<string>): seq<Op> {
    [Forget] + RestoreOps(StateRows(w.state), LiveLeases(leaseFile), now)
  }

  // ---- evaluation -----------------------------------------------------------

  function ProbeOps(h: Host, mac: string, best: Option<In6>, gua: Option<In6>, now: int): seq<Op> {
    if gua.None? then []
    else if best == gua then [Disarm(mac)]
    else if h.probeAt.Some? && now >= h.probeAt.value then [Kick(mac, gua.value, now, best)]
    else []
  }

  /** The next hop is recorded whether or not the kernel accepted the route. */
  function RouteOps(h: Host, mac: string, idx: nat, best: Option<In6>, ok: bool): seq<Op> {
    if best.None? || best == h.nh then []
    else [Install(h.ip4, Route(idx, best.value), ok), Record(mac, best.value)]
  }

  function EvaluateOps(w: World, env: Env, mac: string): seq<Op> {
    if mac !in w.hosts.vals then []
    else
      var h := w.hosts.vals[mac];
      var idx := Index(env.net, h.iface);
      if idx.None? then []
      else
        var best := BestNexthop(env.net, idx.value, mac);
        ProbeOps(h, mac, best, DerivedGua(env.net, idx.value, mac), env.now) +
        RouteOps(h, mac, idx.value, best, env.installOk)
  }

  /** One pass over the given hosts on a single kernel reading. */
  function SweepOps(w: World, env: Env, macs: seq<string>): seq<Op>
    decreases |macs|
  {
    if macs == [] then []
    else
      var ops := EvaluateOps(w, env, macs[0]);
      ops + SweepOps(ApplyAll(ops, w), env, macs[1..])
  }

  // ---- lease events ---------------------------------------------------------

  predicate LeaseChanged(w: World, iface: string, mac: string, ip4: string) {
    mac in w.hosts.vals && (w.hosts.vals[mac].iface != iface || w.hosts.vals[mac].ip4 != ip4)
  }

  /** Everything `on_lease` does before it writes the state file. */
  function LeaseTableOps(w: World, env: Env, iface: string, mac: string, ip4: string): seq<Op> {
    (if LeaseChanged(w, iface, mac, ip4) then [Withdraw(w.hosts.vals[mac].ip4, env.deleteOk)] else [])
    + (if mac !in w.hosts.vals || LeaseChanged(w, iface, mac, ip4)
       then [Track(mac, Host(iface, ip4, None, None))] else [])
    + [Arm(mac, env.now)]
  }

  function OnLeaseOps(w: World, env: Env, iface: string, mac: string, ip4: string): seq<Op> {
    var table := LeaseTableOps(w, env, iface, mac, ip4);
    var w1 := ApplyAll(table, w);
    table + PersistOps(w1.hosts, env) + EvaluateOps(w1, env, mac)
  }

  function OnReleaseOps(w: World, env: Env, mac: string): seq<Op> {
    if mac !in w.hosts.vals then []
    else
      [Untrack(mac), Withdraw(w.hosts.vals[mac].ip4, env.deleteOk)] + PersistOps(Remove(w.hosts, mac), env)
  }

  datatype Request = Lease(iface: string, mac: string, ip4: string) | Release(mac: string) | Ignored

  function ParseRequest(line: string): (r: Request)
    ensures r.Lease? ==> CleanRow(Row(r.mac, r.iface, r.ip4))
  {
    var p := Words(line);
    if |p| < 4 then Ignored
    else
      LowerIsStable(p[2]);
      if p[0] == "add" || p[0] == "old" then Lease(p[1], Lower(p[2]), p[3])
      else if p[0] == "del" then Release(Lower(p[2]))
      else Ignored
  }

  function RequestOps(w: World, env: Env, r: Request): seq<Op> {
    match r
    case Lease(iface, mac, ip4) => OnLeaseOps(w, env, iface, mac, ip4)
    case Release(mac) => OnReleaseOps(w, env, mac)
    case Ignored => []
  }

  function HandleLineOps(w: World, env: Env, line: string): seq<Op> {
    RequestOps(w, env, ParseRequest(line))
  }

  // ---- runs -----------------------------------------------------------------

  /** A FIFO line, one host's evaluation inside a sweep, or someone else flushing routes. */
  datatype Event = Line(env: Env, text: string) | Evaluate(env: Env, mac: string) | External(ips: set<string>)

  /** Either an event runs to its end, or the process dies after `k` of its operations and restarts. */
  datatype Item = Do(e: Event) | Die(e: Event, k: nat, now: int, leaseFile: Option<string>)

  function EventOps(w: World, e: Event): seq<Op> {
    match e
    case Line(env, text) => HandleLineOps(w, env, text)
    case Evaluate(env, mac) => EvaluateOps(w, env, mac)
    case External(ips) => [Flush(ips)]
  }

  /** The operations of `e` that ran before the process died. */
  function CutOps(w: World, e: Event, k: nat): (ops: seq<Op>)
    ensures ops <= EventOps(w, e)
  {
    if k <= |EventOps(w, e)| then EventOps(w, e)[..k] else EventOps(w, e)
  }

  function ItemOps(w: World, item: Item): seq<Op> {
    match item
    case Do(e) => EventOps(w, e)
    case Die(e, k, now, leaseFile) =>
      var cut := CutOps(w, e, k);
      cut + BootOps(ApplyAll(cut, w), now, leaseFile)
  }

  /** The whole history of micro-operations of a run. */
  function RunOps(w: World, items: seq<Item>): seq<Op>
    decreases |items|
  {
    if items == [] then []
    else
      var ops := ItemOps(w, items[0]);
      ops + RunOps(ApplyAll(ops, w), items[1..])
  }

  function Run(w: World, items: seq<Item>): World
    decreases |items|
  {
    if items == [] then w else Run(ApplyAll(ItemOps(w, items[0]), w), items[1..])
  }

  lemma {:induction false} RunIsItsOps(w: World, items: seq<Item>)
    ensures Run(w, items) == ApplyAll(RunOps(w, items), w)
    decreases |items|
  {
    if items != [] {
      var ops := ItemOps(w, items[0]);
      ApplyAllConcat(ops, RunOps(ApplyAll(ops, w), items[1..]), w);
      RunIsItsOps(ApplyAll(ops, w), items[1..]);
    }
  }
}
