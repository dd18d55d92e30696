/** The daemon's `Manager` object in its own form: methods that update the host table, the kernel and the disk. */
module ManagerObject {
  import opened Prelude
  import opened Inet
  import opened Text
  import opened Eui64
  import opened NextHop
  import opened StateFile
  import opened ReturnRoutes
  import opened Effects

  // ---- inspection -----------------------------------------------------------

  method ReadPrefix(net: Net, idx: nat) returns (prefix: Option<In6>)
    ensures prefix == Prefix(net, idx)
  {
    var i := 0;
    while i < |net.routes6|
      invariant i <= |net.routes6|
      invariant PrefixIn(net.routes6, idx) == PrefixIn(net.routes6[i..], idx)
    {
      var r := net.routes6[i];
      if Advertises(r, idx) {
        return Some(Network64(r.dst.value));
      }
      i := i + 1;
    }
    return None;
  }

  method ReadCache(net: Net, idx: nat, mac: string) returns (out: Dict<In6, nat>)
    ensures out == Cache(net, idx, mac)
  {
    out := EmptyDict();
    if !net.neighboursReadable {
      return;
    }
    for i := 0 to |net.neighbours|
      invariant out == CacheUpTo(net.neighbours, i, idx, mac)
    {
      var n := net.neighbours[i];
      if BelongsTo(n, idx, mac) {
        out := Put(out, n.dst.value, n.state);
      }
    }
  }

  method FindUsable(cache: Dict<In6, nat>, c: AddressClass) returns (found: Option<In6>)
    ensures found == FirstUsable(cache, cache.keys, c)
  {
    var i := 0;
    while i < |cache.keys|
      invariant i <= |cache.keys|
      invariant FirstUsable(cache, cache.keys, c) == FirstUsable(cache, cache.keys[i..], c)
    {
      if Usable(cache, cache.keys[i]) && InClass(c, cache.keys[i]) {
        return Some(cache.keys[i]);
      }
      i := i + 1;
    }
    return None;
  }

  /** `best_nexthop`: the hop is the first entry of the best tier, and the derived GUA is returned regardless. */
  method ReadBestNexthop(net: Net, idx: nat, mac: string) returns (nh: Option<In6>, gua: Option<In6>)
    ensures gua == DerivedGua(net, idx, mac)
    ensures nh == BestNexthop(net, idx, mac)
    ensures nh.Some? ==> exists i: nat :: FirstOfBestTier(Cache(net, idx, mac), gua, i) &&
                                          Cache(net, idx, mac).keys[i] == nh.value
  {
    var prefix := ReadPrefix(net, idx);
    gua := if prefix.Some? then DeriveGua(prefix.value, mac) else None;
    var cache := ReadCache(net, idx, mac);
    ChoiceIsFirstOfBestTier(cache, gua);
    if gua.Some? && Usable(cache, gua.value) {
      return gua, gua;
    }
    nh := FindUsable(cache, Global);
    if nh.None? {
      nh := FindUsable(cache, Fe80);
    }
  }

  method ReadLiveLeases(leaseFile: Option<string>) returns (live: Option<set<(string, string)>>)
    ensures live == LiveLeases(leaseFile)
  {
    if leaseFile.None? {
      return None;
    }
    var rows := Lines(leaseFile.value);
    var pairs: set<(string, string)> := {};
    for i := 0 to |rows|
      invariant pairs + LiveRows(rows[i..]) == LiveRows(rows)
    {
      var c := Words(rows[i]);
      assert rows[i..][1..] == rows[i + 1..];
      if |c| >= 3 {
        pairs := pairs + {(Lower(c[1]), c[2])};
      }
    }
    return Some(pairs);
  }

  // ---- bookkeeping for the proofs -------------------------------------------

  /** From `w0` with history `t0`, exactly `ops` happened. */
  ghost predicate Did(w0: World, t0: seq<Op>, ops: seq<Op>, w: World, t: seq<Op>) {
    w == ApplyAll(ops, w0) && t == t0 + ops
  }

  lemma DidNothing(w: World, t: seq<Op>)
    ensures Did(w, t, [], w, t)
  {
  }

  lemma DidThen(w0: World, t0: seq<Op>, a: seq<Op>, w1: World, t1: seq<Op>, b: seq<Op>, w2: World, t2: seq<Op>)
    requires Did(w0, t0, a, w1, t1) && Did(w1, t1, b, w2, t2)
    ensures Did(w0, t0, a + b, w2, t2)
  {
    ApplyAllConcat(a, b, w0);
  }

  lemma DidOne(w0: World, t0: seq<Op>, a: seq<Op>, w1: World, t1: seq<Op>, op: Op)
    requires Did(w0, t0, a, w1, t1)
    ensures Did(w0, t0, a + [op], Apply(op, w1), t1 + [op])
  {
    ApplySnoc(a, op, w0);
  }

  lemma DidPrefix(w0: World, t0: seq<Op>, all: seq<Op>, k: nat, w: World, t: seq<Op>)
    requires k < |all| && Did(w0, t0, all[..k], w, t)
    ensures Did(w0, t0, all[..k + 1], Apply(all[k], w), t + [all[k]])
  {
    DidOne(w0, t0, all[..k], w, t, all[k]);
    assert all[..k + 1] == all[..k] + [all[k]];
  }

  lemma Bracketed(first: Op, ops: seq<Op>, last: Op)
    ensures var all := [first] + ops + [last];
            all[0] == first && all[|all| - 1] == last && forall i :: 0 <= i < |ops| ==> all[i + 1] == ops[i]
  {
  }

  lemma TableWrites(hosts: Dict<string, Host>) returns (writes: seq<Op>)
    ensures writes == WriteOps(RowsOf(hosts)) && |writes| == |hosts.keys|
    ensures forall i :: 0 <= i < |writes| ==> writes[i] == TmpWrite(RowOf(hosts.keys[i], hosts.vals[hosts.keys[i]]))
  {
    writes := WriteOps(RowsOf(hosts));
    WriteOpsAreWrites(RowsOf(hosts));
  }

  /** The operations of a full persist, one by one. */
  lemma PersistPlan(hosts: Dict<string, Host>) returns (all: seq<Op>)
    ensures all == FullPersistOps(hosts)
    ensures |all| == |hosts.keys| + 2 && all[0] == TmpOpen && all[|all| - 1] == Rename
    ensures forall i :: 0 <= i < |hosts.keys| ==>
              all[i + 1] == TmpWrite(RowOf(hosts.keys[i], hosts.vals[hosts.keys[i]]))
  {
    var writes := TableWrites(hosts);
    all := [TmpOpen] + writes + [Rename];
    Bracketed(TmpOpen, writes, Rename);
  }

  /** Performing `rest` from here completes `all`. */
  ghost predicate Left(w: World, t: seq<Op>, rest: seq<Op>, w0: World, t0: seq<Op>, all: seq<Op>) {
    t + rest == t0 + all && ApplyAll(rest, w) == ApplyAll(all, w0)
  }

  lemma LeftStep(w: World, t: seq<Op>, ops: seq<Op>, rest: seq<Op>, w0: World, t0: seq<Op>, all: seq<Op>)
    requires Left(w, t, ops + rest, w0, t0, all)
    ensures Left(ApplyAll(ops, w), t + ops, rest, w0, t0, all)
  {
    ApplyAllConcat(ops, rest, w);
    assert t + (ops + rest) == (t + ops) + rest;
  }

  // ---- the object -----------------------------------------------------------

  class Manager {
    var hosts: Dict<string, Host>
    var routes: map<string, Route>
    var state: Option<string>
    var tmp: Option<string>
    /** Every micro-operation performed so far, in order. */
    ghost var trace: seq<Op>

    ghost function Now(): World
      reads this
    {
      World(hosts, routes, state, tmp)
    }

    /** A new process on a machine whose kernel and disk are as given. */
    constructor (routes: map<string, Route>, state: Option<string>, tmp: Option<string>)
      ensures Now() == World(EmptyDict(), routes, state, tmp) && trace == []
    {
      this.hosts, this.routes, this.state, this.tmp := EmptyDict(), routes, state, tmp;
      this.trace := [];
    }

    method Install(ip4: string, idx: nat, nh: In6, ok: bool)
      modifies this
      ensures Now() == Apply(Op.Install(ip4, Route(idx, nh), ok), old(Now()))
      ensures trace == old(trace) + [Op.Install(ip4, Route(idx, nh), ok)]
    {
      if ok {
        routes := routes[ip4 := Route(idx, nh)];
      }
      trace := trace + [Op.Install(ip4, Route(idx, nh), ok)];
    }

    method Withdraw(ip4: string, ok: bool)
      modifies this
      ensures Now() == Apply(Op.Withdraw(ip4, ok), old(Now()))
      ensures trace == old(trace) + [Op.Withdraw(ip4, ok)]
    {
      if ok {
        routes := routes - {ip4};
      }
      trace := trace + [Op.Withdraw(ip4, ok)];
    }

    /** `self.hosts[mac] = {...}` for a new or changed lease. */
    method StartHost(mac: string, h: Host)
      modifies this
      ensures Now() == Apply(Track(mac, h), old(Now())) && trace == old(trace) + [Track(mac, h)]
    {
      hosts := Put(hosts, mac, h);
      trace := trace + [Track(mac, h)];
    }

    method StartTimer(mac: string, now: int)
      requires mac in hosts.vals
      modifies this
      ensures Now() == Apply(Arm(mac, now), old(Now())) && trace == old(trace) + [Arm(mac, now)]
    {
      hosts := Put(hosts, mac, hosts.vals[mac].(probeAt := Some(now + GUA_PROBE_DELAY)));
      trace := trace + [Arm(mac, now)];
    }

    method OpenTmp()
      modifies this
      ensures Now() == Apply(TmpOpen, old(Now())) && trace == old(trace) + [TmpOpen]
    {
      tmp := Some("");
      trace := trace + [TmpOpen];
    }

    method WriteRow(row: Row)
      requires tmp.Some?
      modifies this
      ensures Now() == Apply(TmpWrite(row), old(Now())) && trace == old(trace) + [TmpWrite(row)]
    {
      tmp := Some(tmp.value + RowText(row));
      trace := trace + [TmpWrite(row)];
    }

    method RenameTmp()
      requires tmp.Some?
      modifies this
      ensures Now() == Apply(Rename, old(Now())) && trace == old(trace) + [Rename]
    {
      state, tmp := tmp, None;
      trace := trace + [Rename];
    }

    method UpdateProbe(env: Env, mac: string, best: Option<In6>, gua: Option<In6>)
      requires mac in hosts.vals
      modifies this
      ensures var h := old(hosts).vals[mac];
              && Did(old(Now()), old(trace), ProbeOps(h, mac, best, gua, env.now), Now(), trace)
              && mac in hosts.vals && hosts.vals[mac].nh == h.nh && hosts.vals[mac].ip4 == h.ip4
    {
      var h := hosts.vals[mac];
      if gua.Some? && best == gua {
        ApplyOne(Disarm(mac), Now());
        hosts := Put(hosts, mac, h.(probeAt := None));
        trace := trace + [Disarm(mac)];
      } else if gua.Some? && h.probeAt.Some? && env.now >= h.probeAt.value {
        ApplyOne(Kick(mac, gua.value, env.now, best), Now());
        hosts := Put(hosts, mac, h.(probeAt := None));
        trace := trace + [Kick(mac, gua.value, env.now, best)];
      }
    }

    method UpdateRoute(env: Env, mac: string, idx: nat, best: Option<In6>)
      requires mac in hosts.vals
      modifies this
      ensures Did(old(Now()), old(trace), RouteOps(old(hosts).vals[mac], mac, idx, best, env.installOk), Now(), trace)
    {
      var h := hosts.vals[mac];
      if best.None? || best == h.nh {
        return;
      }
      ghost var w, t := Now(), trace;
      Install(h.ip4, idx, best.value, env.installOk);
      hosts := Put(hosts, mac, h.(nh := best));
      trace := trace + [Record(mac, best.value)];
      RouteEffect(w, mac, idx, best, env.installOk);
      assert RouteOps(h, mac, idx, best, env.installOk) ==
             [Op.Install(h.ip4, Route(idx, best.value), env.installOk)] + [Record(mac, best.value)];
    }

    method Evaluate(env: Env, mac: string)
      modifies this
      ensures Did(old(Now()), old(trace), EvaluateOps(old(Now()), env, mac), Now(), trace)
    {
      if mac !in hosts.vals {
        return;
      }
      var idx := Index(env.net, hosts.vals[mac].iface);
      if idx.None? {
        return;
      }
      var best, gua := ReadBestNexthop(env.net, idx.value, mac);
      ghost var h := hosts.vals[mac];
      UpdateProbe(env, mac, best, gua);
      ghost var w, t := Now(), trace;
      UpdateRoute(env, mac, idx.value, best);
      DidThen(old(Now()), old(trace), ProbeOps(h, mac, best, gua, env.now), w, t,
              RouteOps(h, mac, idx.value, best, env.installOk), Now(), trace);
    }

    method ReconcileAll(env: Env)
      modifies this
      ensures Did(old(Now()), old(trace), SweepOps(old(Now()), env, old(hosts).keys), Now(), trace)
    {
      var macs := hosts.keys;
      ghost var w0, t0 := Now(), trace;
      ghost var all := SweepOps(w0, env, macs);
      assert macs[0..] == macs;
      var i := 0;
      while i < |macs|
        invariant i <= |macs|
        invariant Left(Now(), trace, SweepOps(Now(), env, macs[i..]), w0, t0, all)
      {
        ghost var w, t := Now(), trace;
        assert macs[i..][1..] == macs[i + 1..];
        LeftStep(w, t, EvaluateOps(w, env, macs[i]),
                 SweepOps(ApplyAll(EvaluateOps(w, env, macs[i]), w), env, macs[i + 1..]), w0, t0, all);
        Evaluate(env, macs[i]);
        i := i + 1;
      }
    }

    /** Write the rows; `failed` when the disk gave out before the last one. */
    method WriteRows(env: Env, ghost all: seq<Op>, ghost w0: World, ghost t0: seq<Op>) returns (failed: bool)
      requires |all| == |hosts.keys| + 2 && tmp.Some? && env.diskFailsAt != Some(0)
      requires forall i :: 0 <= i < |hosts.keys| ==>
                 all[i + 1] == TmpWrite(RowOf(hosts.keys[i], hosts.vals[hosts.keys[i]]))
      requires Did(w0, t0, all[..1], Now(), trace)
      modifies this
      ensures failed ==> env.diskFailsAt.Some? && env.diskFailsAt.value < |all| - 1 &&
                         Did(w0, t0, all[..env.diskFailsAt.value], Now(), trace)
      ensures !failed ==> (env.diskFailsAt.Some? ==> env.diskFailsAt.value >= |all| - 1) && tmp.Some? &&
                          Did(w0, t0, all[..|all| - 1], Now(), trace)
    {
      var table := hosts;
      var i := 0;
      while i < |table.keys|
        invariant i <= |table.keys| && tmp.Some?
        invariant env.diskFailsAt.Some? ==> env.diskFailsAt.value > i
        invariant Did(w0, t0, all[..i + 1], Now(), trace)
      {
        if env.diskFailsAt == Some(i + 1) {
          return true;
        }
        DidPrefix(w0, t0, all, i + 1, Now(), trace);
        WriteRow(RowOf(table.keys[i], table.vals[table.keys[i]]));
        i := i + 1;
      }
      return false;
    }

    method Persist(env: Env)
      modifies this
      ensures Did(old(Now()), old(trace), PersistOps(old(hosts), env), Now(), trace)
    {
      ghost var all := PersistPlan(hosts);
      ghost var w0, t0 := Now(), trace;
      if env.diskFailsAt == Some(0) {
        return;
      }
      DidPrefix(w0, t0, all, 0, w0, t0);
      OpenTmp();
      var rows := |hosts.keys|;
      var failed := WriteRows(env, all, w0, t0);
      if failed || env.diskFailsAt == Some(rows + 1) {
        return;
      }
      DidPrefix(w0, t0, all, |all| - 1, Now(), trace);
      RenameTmp();
      assert all[..|all|] == all;
    }

    /** The part of `on_lease` that replaces a changed lease and starts the probe timer. */
    method ChangeLease(env: Env, iface: string, mac: string, ip4: string)
      modifies this
      ensures Did(old(Now()), old(trace), LeaseTableOps(old(Now()), env, iface, mac, ip4), Now(), trace)
    {
      ghost var w0, t0 := Now(), trace;
      ghost var done: seq<Op> := [];
      DidNothing(w0, t0);
      var h := MapGet(hosts.vals, mac);
      if h.Some? && (h.value.iface != iface || h.value.ip4 != ip4) {
        DidOne(w0, t0, done, Now(), trace, Op.Withdraw(h.value.ip4, env.deleteOk));
        Withdraw(h.value.ip4, env.deleteOk);
        done := done + [Op.Withdraw(h.value.ip4, env.deleteOk)];
        h := None;
      }
      if h.None? {
        h := Some(Host(iface, ip4, None, None));
        DidOne(w0, t0, done, Now(), trace, Track(mac, h.value));
        StartHost(mac, h.value);
        done := done + [Track(mac, h.value)];
      }
      DidOne(w0, t0, done, Now(), trace, Arm(mac, env.now));
      StartTimer(mac, env.now);
      done := done + [Arm(mac, env.now)];
      assert done == LeaseTableOps(w0, env, iface, mac, ip4);
    }

    method OnLease(env: Env, iface: string, mac: string, ip4: string)
      modifies this
      ensures Did(old(Now()), old(trace), OnLeaseOps(old(Now()), env, iface, mac, ip4), Now(), trace)
    {
      ghost var w0, t0 := Now(), trace;
      ChangeLease(env, iface, mac, ip4);
      ghost var table := LeaseTableOps(w0, env, iface, mac, ip4);
      ghost var w1, t1 := Now(), trace;
      ghost var persist, eval := PersistOps(w1.hosts, env), EvaluateOps(w1, env, mac);
      Persist(env);
      ghost var w2, t2 := Now(), trace;
      DidThen(w0, t0, table, w1, t1, persist, w2, t2);
      PersistEffect(w1, w1.hosts, env);
      EvaluateReadsTables(w1, w2, env, mac);
      Evaluate(env, mac);
      DidThen(w0, t0, table + persist, w2, t2, eval, Now(), trace);
    }

    method OnRelease(env: Env, mac: string)
      modifies this
      ensures Did(old(Now()), old(trace), OnReleaseOps(old(Now()), env, mac), Now(), trace)
    {
      ghost var w0, t0 := Now(), trace;
      var h := MapGet(hosts.vals, mac);
      hosts := Remove(hosts, mac);
      if h.Some? {
        ghost var drop := Op.Withdraw(h.value.ip4, env.deleteOk);
        DidOne(w0, t0, [], w0, t0, Untrack(mac));
        trace := trace + [Untrack(mac)];
        DidOne(w0, t0, [] + [Untrack(mac)], Now(), trace, drop);
        assert [] + [Untrack(mac)] + [drop] == [Untrack(mac), drop];
        Withdraw(h.value.ip4, env.deleteOk);
        ghost var w1, t1 := Now(), trace;
        Persist(env);
        DidThen(w0, t0, [Untrack(mac), drop], w1, t1, PersistOps(w1.hosts, env), Now(), trace);
      } else {
        RemoveMissing(w0.hosts, mac);
      }
    }

    method HandleLine(env: Env, line: string)
      modifies this
      ensures Did(old(Now()), old(trace), HandleLineOps(old(Now()), env, line), Now(), trace)
    {
      var p := Words(line);
      if |p| < 4 {
        return;
      }
      var action, iface, mac, ip4 := p[0], p[1], Lower(p[2]), p[3];
      if action == "add" || action == "old" {
        OnLease(env, iface, mac, ip4);
      } else if action == "del" {
        OnRelease(env, mac);
      }
    }

    method RestoreLine(line: string, live: Option<set<(string, string)>>, now: int)
      modifies this
      ensures Did(old(Now()), old(trace), LineOps(line, live, now), Now(), trace)
    {
      var row := ParseRow(line);
      if row.Some? && Kept(row.value, live) {
        DidOne(Now(), trace, [], Now(), trace, Reload(row.value, now));
        assert [] + [Reload(row.value, now)] == [Reload(row.value, now)];
        hosts := Put(hosts, row.value.mac, RestoredHost(row.value, now));
        trace := trace + [Reload(row.value, now)];
      }
    }

    method Restore(leaseFile: Option<string>, now: int)
      modifies this
      ensures Did(old(Now()), old(trace), RestoreOps(StateRows(old(state)), LiveLeases(leaseFile), now), Now(), trace)
    {
      var live := ReadLiveLeases(leaseFile);
      if state.None? {
        return;
      }
      var lines := Lines(state.value);
      ghost var w0, t0 := Now(), trace;
      ghost var all := RestoreOps(ParseLines(lines), live, now);
      assert lines[0..] == lines;
      var i := 0;
      while i < |lines|
        invariant i <= |lines|
        invariant Left(Now(), trace, RestoreOps(ParseLines(lines[i..]), live, now), w0, t0, all)
      {
        assert lines[i..][1..] == lines[i + 1..];
        RestoreByLine(lines[i..], live, now);
        LeftStep(Now(), trace, LineOps(lines[i], live, now), RestoreOps(ParseLines(lines[i + 1..]), live, now),
                 w0, t0, all);
        RestoreLine(lines[i], live, now);
        i := i + 1;
      }
    }
  }

  lemma RemoveMissing(hosts: Dict<string, Host>, mac: string)
    requires mac !in hosts.vals
    ensures Remove(hosts, mac) == hosts
  {
    WithoutMissing(hosts.keys, mac);
    assert hosts.vals - {mac} == hosts.vals;
  }

  lemma {:induction false} WithoutMissing(s: seq<string>, k: string)
    requires k !in s
    ensures Without(s, k) == s
  {
    if s != [] {
      WithoutMissing(s[1..], k);
    }
  }

  /** What `restore` does with one line of the state file. */
  function LineOps(line: string, live: Option<set<(string, string)>>, now: int): seq<Op> {
    var row := ParseRow(line);
    if row.Some? && Kept(row.value, live) then [Reload(row.value, now)] else []
  }

  lemma RestoreByLine(lines: seq<string>, live: Option<set<(string, string)>>, now: int)
    requires lines != []
    ensures RestoreOps(ParseLines(lines), live, now) ==
            LineOps(lines[0], live, now) + RestoreOps(ParseLines(lines[1..]), live, now)
  {
    if ParseRow(lines[0]).Some? {
      assert ParseLines(lines)[1..] == ParseLines(lines[1..]);
    } else {
      assert ParseLines(lines) == ParseLines(lines[1..]);
    }
  }
}
