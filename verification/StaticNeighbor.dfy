/**
 * The permanent-neighbour realization: the sentinel's IPv4 neighbour entry is pinned to the MAC
 * of the IPv6 default router. One specification, and where every pinned MAC comes from.
 */
module StaticNeighbor {
  import opened Prelude
  import opened Inet
  import opened RouterCache

  // ---- the kernel's IPv4 neighbour table ------------------------------------

  datatype Entry = Entry(lladdr: seq<Octet>, permanent: bool)

  /** Interface and IPv4 address. */
  type Key = (nat, nat)
  type Table = map<Key, Entry>

  /** A row of a dump of the table. */
  datatype Row = Row(key: Key, entry: Entry)

  /** The rows list the table, in any order. */
  ghost predicate Dumps(rows: seq<Row>, table: Table) {
    && (forall i :: 0 <= i < |rows| ==> rows[i].key in table && table[rows[i].key] == rows[i].entry)
    && (forall k :: k in table ==> exists i :: 0 <= i < |rows| && rows[i].key == k)
  }

  predicate Pinned(table: Table, key: Key, mac: Mac) {
    key in table && table[key] == Entry(mac, true)
  }

  // ---- the specification ----------------------------------------------------

  /** The table and the MAC the daemon believes it has pinned. */
  datatype Pin = Pin(table: Table, installed: Option<Mac>)

  /** Nothing to do: the shadow says so and the kernel confirms it. */
  predicate InPlace(p: Pin, key: Key, mac: Mac) {
    p.installed == Some(mac) && Pinned(p.table, key, mac)
  }

  function PinTo(p: Pin, key: Key, mac: Mac): Pin {
    if InPlace(p, key, mac) then p else Pin(p.table[key := Entry(mac, true)], Some(mac))
  }

  /** From any kernel and shadow state one pin is enough, it touches no other entry, and a second is a no-op. */
  lemma PinToStabilises(p: Pin, key: Key, mac: Mac)
    ensures var q := PinTo(p, key, mac);
            && InPlace(q, key, mac)
            && PinTo(q, key, mac) == q
            && q.table - {key} == p.table - {key}
  {
  }

  /** A dynamic entry with the right MAC, as left by a flush, is not accepted. */
  lemma DynamicEntryIsReplaced(p: Pin, key: Key, mac: Mac)
    requires key in p.table && p.table[key] == Entry(mac, false)
    ensures !InPlace(p, key, mac) && Pinned(PinTo(p, key, mac).table, key, mac)
  {
  }

  // ---- one reconcile of the daemons with a cache ----------------------------

  /** How a kernel write went; `lost` when a failed replacement had already removed the entry. */
  datatype PinResult = Done | Failed(lost: bool)

  /** Whether the table can be read, and how writes to kernel and cache go. */
  datatype Io = Io(readable: bool, pin: PinResult, unpinOk: bool, storeOk: bool)

  /** What a reconcile finds: no interface, a closed gate, or own MAC and ND-resolved router MAC. */
  datatype Sight = Gone | Shut | Seen(own: Option<Mac>, router: Option<Mac>)

  datatype Daemon = Daemon(pin: Pin, cache: map<Mac, Mac>)

  function PinWith(p: Pin, key: Key, mac: Mac, io: Io): Pin {
    if io.readable && InPlace(p, key, mac) then p
    else match io.pin
      case Done => Pin(p.table[key := Entry(mac, true)], Some(mac))
      case Failed(lost) => p.(table := if lost then p.table - {key} else p.table)
  }

  function Unpin(p: Pin, key: Key, ok: bool): Pin {
    if p.installed.None? then p else Pin(if ok then p.table - {key} else p.table, None)
  }

  /** The MAC this reconcile pins: the resolved router's, else the one remembered for this own MAC. */
  function Target(d: Daemon, sight: Sight): Option<Mac> {
    if !sight.Seen? then None
    else if sight.router.Some? then sight.router
    else if sight.own.Some? then MapGet(d.cache, sight.own.value)
    else None
  }

  function Step(d: Daemon, key: Key, sight: Sight, io: Io): Daemon {
    if sight.Gone? then d.(pin := d.pin.(installed := None))
    else
      var mac := Target(d, sight);
      Daemon(if mac.Some? then PinWith(d.pin, key, mac.value, io) else Unpin(d.pin, key, io.unpinOk),
             if sight.Seen? && sight.router.Some? && sight.own.Some? && io.storeOk
             then d.cache[sight.own.value := sight.router.value] else d.cache)
  }

  /** The reconcile needs no write to the kernel's neighbour table. */
  predicate Quiet(d: Daemon, key: Key, sight: Sight, readable: bool) {
    sight.Gone? ||
    match Target(d, sight)
    case Some(mac) => readable && InPlace(d.pin, key, mac)
    case None => d.pin.installed.None?
  }

  lemma PinWithIsPinTo(p: Pin, key: Key, mac: Mac, io: Io)
    requires io.pin.Done?
    ensures PinWith(p, key, mac, io) == PinTo(p, key, mac)
  {
  }

  /** With the router resolved, one successful reconcile from any state pins it and the next needs no write. */
  lemma ReconcileStabilises(d: Daemon, key: Key, sight: Sight, io: Io, again: Io)
    requires sight.Seen? && sight.router.Some? && io.pin.Done? && again.readable
    ensures var d' := Step(d, key, sight, io);
            && InPlace(d'.pin, key, sight.router.value)
            && Quiet(d', key, sight, again.readable)
            && Step(d', key, sight, again).pin == d'.pin
  {
  }

  /** Ceding to ARP: unresolved and unknown, the pin is gone afterwards iff the daemon knew of it or there was none. */
  lemma CedeIff(d: Daemon, key: Key, sight: Sight, io: Io)
    requires sight.Seen? && Target(d, sight).None? && io.unpinOk
    ensures (key in Step(d, key, sight, io).pin.table && Step(d, key, sight, io).pin.table[key].permanent) <==>
            d.pin.installed.None? && key in d.pin.table && d.pin.table[key].permanent
  {
  }

  /** The gate is shut: the pin the daemon knows of goes, and is forgotten even when the kernel keeps it. */
  lemma ShutWithdraws(d: Daemon, key: Key, io: Io)
    ensures var d' := Step(d, key, Shut, io);
            && d'.pin.installed == None && d'.cache == d.cache
            && d'.pin.table == if d.pin.installed.Some? && io.unpinOk then d.pin.table - {key} else d.pin.table
  {
  }

  /** The interface is gone, and its neighbour entries with it: the daemon only forgets. */
  lemma GoneForgets(d: Daemon, key: Key, io: Io)
    ensures Step(d, key, Gone, io) == Daemon(Pin(d.pin.table, None), d.cache)
  {
  }

  /** The kernel refuses: what the daemon believes stays, and so does every entry but the sentinel's. */
  lemma RefusedPinKeepsShadow(d: Daemon, key: Key, own: Option<Mac>, router: Mac, io: Io)
    requires io.pin.Failed?
    ensures var d' := Step(d, key, Seen(own, Some(router)), io);
            && d'.pin.installed == d.pin.installed && d'.pin.table - {key} == d.pin.table - {key}
            && (!io.pin.lost ==> d'.pin.table == d.pin.table)
            && (own.Some? && io.storeOk ==> MapGet(d'.cache, own.value) == Some(router))
  {
  }

  // ---- runs -----------------------------------------------------------------

  /** A reconcile, a restart that loses the shadow, or the outside world changing the table. */
  datatype Event = Reconcile(sight: Sight, io: Io) | Restart | Outside(table: Table)

  function Handle(d: Daemon, key: Key, e: Event): Daemon {
    match e
    case Reconcile(sight, io) => Step(d, key, sight, io)
    case Restart => d.(pin := d.pin.(installed := None))
    case Outside(table) => d.(pin := d.pin.(table := table))
  }

  function Run(d: Daemon, key: Key, events: seq<Event>): Daemon
    decreases |events|
  {
    if events == [] then d else Run(Handle(d, key, events[0]), key, events[1..])
  }

  function Sights(events: seq<Event>): seq<Sight> {
    if events == [] then [] else (if events[0].Reconcile? then [events[0].sight] else []) + Sights(events[1..])
  }

  /** The ND cache gave this router MAC while the interface had this own MAC. */
  ghost predicate Read(history: seq<Sight>, own: Option<Mac>, mac: Mac) {
    exists i :: 0 <= i < |history| && history[i] == Seen(own, Some(mac))
  }

  ghost predicate EverRead(history: seq<Sight>, mac: Mac) {
    exists i :: 0 <= i < |history| && history[i].Seen? && history[i].router == Some(mac)
  }

  /** Every remembered MAC was read under its own MAC, and so was every permanent sentinel entry under some. */
  ghost predicate Accounted(d: Daemon, key: Key, history: seq<Sight>) {
    && (forall o :: o in d.cache ==> Read(history, Some(o), d.cache[o]))
    && (key in d.pin.table && d.pin.table[key].permanent ==>
          |d.pin.table[key].lladdr| == 6 && EverRead(history, d.pin.table[key].lladdr))
  }

  /** Nobody else makes a permanent entry for the sentinel. */
  ghost predicate HandsOff(d: Daemon, key: Key, e: Event) {
    e.Outside? && key in e.table && e.table[key].permanent ==>
      key in d.pin.table && d.pin.table[key] == e.table[key]
  }

  ghost predicate HandsOffRun(d: Daemon, key: Key, events: seq<Event>)
    decreases |events|
  {
    events != [] ==> HandsOff(d, key, events[0]) && HandsOffRun(Handle(d, key, events[0]), key, events[1..])
  }

  lemma TargetWasRead(d: Daemon, key: Key, history: seq<Sight>, sight: Sight, mac: Mac)
    requires Accounted(d, key, history) && Target(d, sight) == Some(mac)
    ensures sight.router == Some(mac) || (sight.own.Some? && Read(history, sight.own, mac))
    ensures EverRead(history + [sight], mac)
  {
    var next := history + [sight];
    if sight.router == Some(mac) {
      assert next[|history|] == sight;
    } else {
      var i :| 0 <= i < |history| && history[i] == Seen(sight.own, Some(mac));
      assert next[i] == history[i];
    }
  }

  lemma ReadStays(history: seq<Sight>, sight: Sight)
    ensures forall own, mac :: Read(history, own, mac) ==> Read(history + [sight], own, mac)
    ensures forall mac :: EverRead(history, mac) ==> EverRead(history + [sight], mac)
  {
    var next := history + [sight];
    forall own, mac | Read(history, own, mac)
      ensures Read(next, own, mac)
    {
      var i :| 0 <= i < |history| && history[i] == Seen(own, Some(mac));
      assert next[i] == history[i];
    }
    forall mac | EverRead(history, mac)
      ensures EverRead(next, mac)
    {
      var i :| 0 <= i < |history| && history[i].Seen? && history[i].router == Some(mac);
      assert next[i] == history[i];
    }
  }

  lemma AccountedAfterReconcile(d: Daemon, key: Key, history: seq<Sight>, sight: Sight, io: Io)
    requires Accounted(d, key, history)
    ensures Accounted(Step(d, key, sight, io), key, history + [sight])
  {
    ReadStays(history, sight);
    assert (history + [sight])[|history|] == sight;
    var mac := Target(d, sight);
    if mac.Some? {
      TargetWasRead(d, key, history, sight, mac.value);
    }
    var d' := Step(d, key, sight, io);
    forall o | o in d'.cache
      ensures Read(history + [sight], Some(o), d'.cache[o])
    {
      if o in d.cache && d'.cache[o] == d.cache[o] {
        assert Read(history, Some(o), d.cache[o]);
      } else {
        assert sight == Seen(Some(o), Some(d'.cache[o]));
      }
    }
  }

  lemma {:induction false} AccountedOverRuns(d: Daemon, key: Key, history: seq<Sight>, events: seq<Event>)
    requires Accounted(d, key, history) && HandsOffRun(d, key, events)
    ensures Accounted(Run(d, key, events), key, history + Sights(events))
    decreases |events|
  {
    if events == [] {
      assert history + Sights(events) == history;
    } else {
      var e := events[0];
      if e.Reconcile? {
        AccountedAfterReconcile(d, key, history, e.sight, e.io);
        AccountedOverRuns(Handle(d, key, e), key, history + [e.sight], events[1..]);
        assert history + [e.sight] + Sights(events[1..]) == history + Sights(events);
      } else {
        AccountedOverRuns(Handle(d, key, e), key, history, events[1..]);
        assert Sights(events) == Sights(events[1..]);
      }
    }
  }

  /**
   * From an empty cache, across restarts, network moves and failing writes: whatever a reconcile
   * pins was read from the ND cache in that reconcile or earlier under the same own MAC, and the
   * permanent sentinel entry always carries a MAC that was read from the ND cache.
   */
  lemma PinProvenance(table: Table, key: Key, events: seq<Event>, sight: Sight, mac: Mac)
    requires key in table ==> !table[key].permanent
    requires HandsOffRun(Daemon(Pin(table, None), map[]), key, events)
    ensures var d := Run(Daemon(Pin(table, None), map[]), key, events);
            && (Target(d, sight) == Some(mac) ==>
                  sight.router == Some(mac) || (sight.own.Some? && Read(Sights(events), sight.own, mac)))
            && (Pinned(d.pin.table, key, mac) ==> EverRead(Sights(events), mac))
  {
    var d0 := Daemon(Pin(table, None), map[]);
    AccountedOverRuns(d0, key, [], events);
    assert [] + Sights(events) == Sights(events);
    var d := Run(d0, key, events);
    if Target(d, sight) == Some(mac) {
      TargetWasRead(d, key, Sights(events), sight, mac);
    }
  }

  /**
   * The daemon pins, restarts without its cache having been written, and finds the router
   * unresolved: the pin it no longer knows of is still there.
   */
  lemma ForgottenPinExample(table: Table, key: Key, own: Option<Mac>, mac: Mac)
    ensures var pinned := Reconcile(Seen(own, Some(mac)), Io(true, Done, true, false));
            var unresolved := Reconcile(Seen(own, None), Io(true, Done, true, true));
            var d := Run(Daemon(Pin(table, None), map[]), key, [pinned, Restart, unresolved]);
            Pinned(d.pin.table, key, mac) && d.pin.installed == None
  {
    var io, again := Io(true, Done, true, false), Io(true, Done, true, true);
    var pinned, unresolved := Reconcile(Seen(own, Some(mac)), io), Reconcile(Seen(own, None), again);
    var d0 := Daemon(Pin(table, None), map[]);
    var d1 := Handle(d0, key, pinned);
    var d2 := Handle(d1, key, Restart);
    ReconcileStabilises(d0, key, Seen(own, Some(mac)), io, again);
    assert d2.cache == map[] && d2.pin == Pin(d1.pin.table, None);
    assert Handle(d2, key, unresolved).pin == d2.pin;
    var events := [pinned, Restart, unresolved];
    assert events[1..] == [Restart, unresolved] && events[1..][1..] == [unresolved] && events[1..][1..][1..] == [];
    assert Run(d0, key, events) == Run(d1, key, events[1..]) == Run(d2, key, events[1..][1..]);
  }

  // ---- freshness of the cache -----------------------------------------------

  /** The latest router MAC read while the interface had this own MAC. */
  function LastRouter(history: seq<Sight>, own: Mac): Option<Mac> {
    if history == [] then None
    else
      var s := history[|history| - 1];
      if s.Seen? && s.own == Some(own) && s.router.Some? then s.router else LastRouter(history[..|history| - 1], own)
  }

  lemma CacheStep(d: Daemon, key: Key, history: seq<Sight>, sight: Sight, io: Io, own: Mac)
    requires MapGet(d.cache, own) == LastRouter(history, own) && io.storeOk
    ensures MapGet(Step(d, key, sight, io).cache, own) == LastRouter(history + [sight], own)
  {
  }

  lemma SightsStep(history: seq<Sight>, events: seq<Event>)
    requires events != []
    ensures events[0].Reconcile? ==> history + Sights(events) == history + [events[0].sight] + Sights(events[1..])
    ensures !events[0].Reconcile? ==> Sights(events) == Sights(events[1..])
  {
  }

  /** When cache writes succeed, an unresolved reconcile re-asserts the latest MAC read on this network. */
  lemma {:induction false} CacheIsLastReading(d: Daemon, key: Key, history: seq<Sight>, events: seq<Event>, own: Mac)
    requires MapGet(d.cache, own) == LastRouter(history, own)
    requires forall i :: 0 <= i < |events| && events[i].Reconcile? ==> events[i].io.storeOk
    ensures MapGet(Run(d, key, events).cache, own) == LastRouter(history + Sights(events), own)
    decreases |events|
  {
    if events == [] {
      assert history + Sights(events) == history;
    } else {
      SightsStep(history, events);
      if events[0].Reconcile? {
        CacheStep(d, key, history, events[0].sight, events[0].io, own);
        CacheIsLastReading(Handle(d, key, events[0]), key, history + [events[0].sight], events[1..], own);
      } else {
        CacheIsLastReading(Handle(d, key, events[0]), key, history, events[1..], own);
      }
    }
  }

  /**
   * After any run with succeeding cache writes: the router is not resolved, but one was read under this
   * own MAC before. One more reconcile pins the latest such reading, ahead of any ARP, and remembers it.
   */
  lemma RememberedMacIsPinned(table: Table, key: Key, events: seq<Event>, own: Mac, mac: Mac, io: Io)
    requires forall i :: 0 <= i < |events| && events[i].Reconcile? ==> events[i].io.storeOk
    requires LastRouter(Sights(events), own) == Some(mac) && io.pin.Done?
    ensures var d := Run(Daemon(Pin(table, None), map[]), key, events);
            var d' := Step(d, key, Seen(Some(own), None), io);
            Pinned(d'.pin.table, key, mac) && d'.pin.installed == Some(mac) && d'.cache == d.cache
  {
    CacheIsLastReading(Daemon(Pin(table, None), map[]), key, [], events, own);
    assert [] + Sights(events) == Sights(events);
  }

  /** And where none was read, or the own MAC is unknown, it cedes to ARP: no pin of its own remains. */
  lemma UnknownNetworkCedes(table: Table, key: Key, events: seq<Event>, own: Option<Mac>, io: Io)
    requires forall i :: 0 <= i < |events| && events[i].Reconcile? ==> events[i].io.storeOk
    requires own.Some? ==> LastRouter(Sights(events), own.value).None?
    ensures var d := Run(Daemon(Pin(table, None), map[]), key, events);
            var d' := Step(d, key, Seen(own, None), io);
            && d'.pin.installed == None && d'.cache == d.cache
            && d'.pin.table == if d.pin.installed.Some? && io.unpinOk then d.pin.table - {key} else d.pin.table
  {
    if own.Some? {
      CacheIsLastReading(Daemon(Pin(table, None), map[]), key, [], events, own.value);
      assert [] + Sights(events) == Sights(events);
    }
  }
}
