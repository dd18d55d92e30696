# IPv6-resolved IPv4 gateway: a Dafny model

The repository is a family of reconciling daemons around one idea: a host's IPv4 default gateway is
the sentinel 192.0.0.11, and the real next hop is the IPv6 default router found by Neighbor
Discovery. Each daemon keeps a small shadow of kernel state and must keep the kernel in step with
live IPv6 state. This project models

- the router-side return-route daemon `v4gwrd.py`: its host table, the kernel's proto-149 /32 table,
  the state file and its temporary file, the FIFO framing, the one-shot GUA probe and the three-tier
  next-hop choice. Every handler is a sequence of micro-operations, so the process may die between
  any two of them (`ReturnRoutes`, `Effects`, `CrashConsistency`, `CrashRuns`, `CrashLimits`,
  `ShadowRuns`, `Sweeps`, `Stickiness`, `Recovery`, `Handlers`, `Failures`, `Probes`, `StateFile`,
  `NextHop`, `Framing`), and the `Manager` object that performs those operations in place (`ManagerObject`, in
  `Manager.dfy`);
- the host-side daemons that install an IPv4 route with an IPv6 next hop: Linux native mode
  (`LinuxNative`), FreeBSD (`FreebsdGate`) and the networkd patches (`Networkd`), with router
  selection in `Selection`;
- the host-side daemons that pin a permanent neighbour: one specification (`StaticNeighbor`), the
  Linux, macOS and Windows code refining it (`PinDaemons`), and the router-MAC cache (`RouterCache`);
- the encodings: routing-socket messages (`RouteSocket`), modified EUI-64 of section 2.5.1 and
  Appendix A of RFC 4291 (`Eui64`), and the address text of the lease hook read under section 2.2
  of RFC 4291 (`ShellHook`).

`dafny verify dfyconfig.toml` checks the whole project.

## How it is put together

A kernel reading, the clock and the success or failure of each call are parameters: an `Env` in
`v4gwrd.py`, a `Round`, `Reading`, `Link` or `Sight` with `Io` elsewhere. Nothing about the
environment is fixed except where a theorem says so. Imperative code is a class or a method whose
contract equates its new state with a specification function of the old one; the theorems about
runs are then about those functions. `Manager` carries a ghost `trace` of the operations it
performs, and every method proves that the trace grew by exactly the operations that the crash
analysis cuts at arbitrary points.

## What the code does not do

Some stronger claims are false. Each has its exact condition, and a run or input on which the claim
fails.

- `evaluate` records the next hop even when the kernel refused the route, so the shadow stays exact
  iff no refused install was wanted (`ShadowRuns.ExactAfterEvaluateIff`), and a refused or flushed
  route stays missing over every run that finds no better hop (`Stickiness.RefusedRouteIsNotRetried`,
  `Stickiness.FlushedRouteStaysMissing`). Reached by `Failures.RefusedInstallIsNotExact` and
  `Failures.RefusedForGood`.
- `restore` drops expired leases without withdrawing their routes, so the next state write loses
  rows iff a pruned lease still had a route (`CrashLimits.CoverageAfterRestartIff`). Reached by
  `Failures.ExpiredLeaseLosesItsRow`.
- A failed state write or route delete is only logged. `CrashLimits.CoverageAfterFailedWriteIff`,
  `CrashLimits.CoverageAfterReleaseIff`, `ShadowRuns.TrackedAfterReleaseIff` and
  `ShadowRuns.TrackedAfterLeaseIff` say when that does no harm; `Failures.FailedWriteUncovers`,
  `Failures.FailedDeleteOnReleaseUncovers` and `Failures.FailedDeleteOnChangeUncovers` are runs
  where it does.
- `_install_route` in `host/v4gwd.py` trusts its shadow: `LinuxNative.OpenGateIff` and
  `LinuxNative.ClosedGateIff`, with `LinuxNative.FlushedRouteExample` and
  `LinuxNative.LeftoverRouteExample`. FreeBSD's `install` does too: `FreebsdGate.InstallReachesIff`
  and `FreebsdGate.FlushedRouteStaysMissing`, reached by `FreebsdGate.FlushAfterInstallExample`.
- FreeBSD's comment (host/freebsd/v4gwd.c:111) says reserved-preference routers are ignored; the
  loop takes one when the interface has nothing else (`Selection.FreebsdTakesReservedIff`,
  `Selection.ReservedOnlyExample`), which is exactly where it differs from networkd
  (`Selection.SelectionsAgreeIff`).
- docs/conformance.md:40 says all selections break ties by lowest address; the Linux daemon takes
  the last of the best in dump order (`Selection.LinuxOrderIndependentIff`,
  `Selection.LinuxOrderMattersExample`).
- networkd returns before its stale sweep when no router is known
  (`Networkd.DeferralKeepsStaleIff`, `Networkd.VanishedRouterExample`); the placeholder patch closes
  that (`Networkd.PlaceholderRun`).
- The lease hook's text denotes no address for a prefix written with four groups before its
  trailing `::` (`ShellHook.HookAgreesIff`).
- A cached daemon cedes to ARP only for a pin it knows about (`StaticNeighbor.CedeIff`,
  `StaticNeighbor.ForgottenPinExample`).
- `router_cache_put` on macOS does not check its write before the rename: an entry that lost its
  last digit reads back as another MAC (`RouterCache.ShortWriteReadsBackIff`).

## Model

| member | source | states |
|---|---|---|
| `CrashRuns.RoutesAlwaysOnDisk` | router/debian/usr/local/sbin/v4gwrd.py:190-279 | From a machine without routes, whatever state file with distinct MACs and whatever temporary file it has, after every prefix of the operations of every run with any number of crashes and restarts, each proto-149 route is listed in the state file, given that state writes and route deletes succeed and no restart prunes a lease that still has a route |
| `CrashRuns.WriteAheadOverRuns` | router/debian/usr/local/sbin/v4gwrd.py:190-279 | The invariant behind it, from any settled state: kernel and disk are consistent before, between and after all operations of the run, and memory, kernel and disk agree at its end |
| `CrashConsistency.LeaseSettled` | router/debian/usr/local/sbin/v4gwrd.py:220-229 | `on_lease` keeps routes covered by the state file at every micro-step, because it writes the file before it installs |
| `CrashConsistency.ReleaseSettled` | router/debian/usr/local/sbin/v4gwrd.py:231-235 | `on_release` keeps routes covered at every micro-step, because it withdraws before it writes |
| `CrashConsistency.EvaluateSettled` | router/debian/usr/local/sbin/v4gwrd.py:190-212 | Evaluation keeps routes covered at every micro-step, installs failing or not |
| `CrashConsistency.PersistIsAtomic` | router/debian/usr/local/sbin/v4gwrd.py:249-258 | Temporary file then rename: the old table is on disk until the rename and the new one after it, safe at every step in between |
| `CrashConsistency.PersistWrites` | router/debian/usr/local/sbin/v4gwrd.py:249-258 | A persist that completes replaces the state file by the rendered table and touches nothing else |
| `CrashConsistency.SafeAtEveryPoint` | router/debian/usr/local/sbin/v4gwrd.py:190-279 | A safe sequence of operations may be cut anywhere: coverage holds of what has happened so far |
| `CrashRuns.BootRestores` | router/debian/usr/local/sbin/v4gwrd.py:260-279 | A restart rebuilds exactly the state file's rows minus the leases dnsmasq dropped, in order, and touches neither kernel nor file |
| `CrashRuns.BootSettled` | router/debian/usr/local/sbin/v4gwrd.py:260-279 | A restart that prunes no lease with a route ends settled and is safe throughout |
| `CrashLimits.CoverageAfterRestartIff` | router/debian/usr/local/sbin/v4gwrd.py:249-279 | After a restart and the next state write, every route is covered iff the restart pruned no lease with a route |
| `CrashLimits.LeaseWrites` | router/debian/usr/local/sbin/v4gwrd.py:220-258 | A lease whose state write succeeds leaves exactly the new table in the file |
| `Failures.ExpiredLeaseLosesItsRow` | router/debian/usr/local/sbin/v4gwrd.py:260-279 | Lease, restart on an empty lease file, same host with another address: every call succeeds, and the old route is untracked and in no file |
| `Failures.RefusedInstallIsNotExact` | router/debian/usr/local/sbin/v4gwrd.py:206-212 | The first lease with a refused install leaves a shadow that is not exact |
| `Failures.RefusedForGood` | router/debian/usr/local/sbin/v4gwrd.py:190-216 | No number of later sweeps over the same neighbours installs that route, though installs succeed again |
| `Failures.FailedWriteUncovers` | router/debian/usr/local/sbin/v4gwrd.py:249-258 | The first lease with a failed state write leaves a route that no file lists |
| `Failures.FailedDeleteOnReleaseUncovers` | router/debian/usr/local/sbin/v4gwrd.py:179-235 | Lease then release with a failed delete leaves a route untracked and unlisted |
| `Failures.FailedDeleteOnChangeUncovers` | router/debian/usr/local/sbin/v4gwrd.py:179-229 | Lease then changed lease with a failed delete leaves the old route untracked and unlisted |
| `CrashLimits.CoverageAfterFailedWriteIff` | router/debian/usr/local/sbin/v4gwrd.py:220-258 | When the state write fails, a lease stays covered iff its address was already listed or no route was put in |
| `CrashLimits.CoverageAfterReleaseIff` | router/debian/usr/local/sbin/v4gwrd.py:231-258 | When the delete fails, a release stays covered iff there was no route or another host holds the address |
| `CrashLimits.HostsCleanOverRuns` | router/debian/usr/local/sbin/v4gwrd.py:237-279 | In every reachable state all stored fields are whitespace-free tokens and MACs are lower-case |
| `CrashLimits.PersistRestoreRoundTrip` | router/debian/usr/local/sbin/v4gwrd.py:249-295 | Persist then restart gives back the same MAC, interface and address rows filtered by the live leases, with next hops cleared and timers restarted |
| `CrashLimits.RoundTripInEveryReachableState` | router/debian/usr/local/sbin/v4gwrd.py:237-295 | The round trip holds after every run of a process that starts with an empty table, whatever kernel and disk hold, crashes and failing calls included |
| `CrashRuns.UnreadableLeasesPruneNothing` | router/debian/usr/local/sbin/v4gwrd.py:282-288 | An unreadable lease file never endangers a covered route |
| `Recovery.StartRepairs` | router/debian/usr/local/sbin/v4gwrd.py:260-363 | Whatever kernel, disk and the dead process held, flushed, refused and stale routes included, restore and the first sweep with succeeding installs route every restored host that alone holds its address and has a usable neighbour to its best hop |
| `Recovery.StartIgnoresUnrestored` | router/debian/usr/local/sbin/v4gwrd.py:260-363 | Starting up neither repairs nor removes the route of an address that was not restored |
| `StateFile.RowsRoundTrip` | router/debian/usr/local/sbin/v4gwrd.py:249-273 | Parsing the rendered rows gives the rows back, for every list of clean rows |
| `StateFile.KeptRowsAre` | router/debian/usr/local/sbin/v4gwrd.py:268-277 | The restored rows are exactly those the lease file still lists, all of them when it is unreadable |
| `StateFile.RowTextFields` | router/debian/usr/local/sbin/v4gwrd.py:254-255 | A written row is one line whose fields are the MAC, the interface and the address, in this order |
| `StateFile.ParsedRowsIff` | router/debian/usr/local/sbin/v4gwrd.py:268-273 | The rows read are exactly the lines with three fields: MAC lower-cased, interface, address |
| `StateFile.LeaseFileReadsBack` | router/debian/usr/local/sbin/v4gwrd.py:282-295 | For every list of leases (expiry, MAC, address, anything after), the pairs read from its text are exactly the lower-cased MAC and the address of each |
| `StateFile.ShortLineLeasesNothing` | router/debian/usr/local/sbin/v4gwrd.py:292-294 | A line with fewer than three fields lists nothing |
| `CrashRuns.RestartKeepsLeasedRows` | router/debian/usr/local/sbin/v4gwrd.py:260-295 | A restart on a readable lease file keeps a row of the state file iff the lease file lists its MAC, in any case, with its address |
| `ReturnRoutes.RunIsItsOps` | router/debian/usr/local/sbin/v4gwrd.py:190-279 | Running event by event equals applying the whole history of micro-operations |
| `Effects.EvaluateEffect` | router/debian/usr/local/sbin/v4gwrd.py:190-212 | The micro-operations of `evaluate` together change one host record and at most one route, as the closed form says |
| `Effects.LeaseEffect` | router/debian/usr/local/sbin/v4gwrd.py:220-229 | Whatever the disk does, `on_lease` leaves the tables as replacing the lease and then evaluating the host does |
| `Effects.ReleaseEffect` | router/debian/usr/local/sbin/v4gwrd.py:231-235 | Whatever the disk does, `on_release` removes the host and its route and nothing else |
| `Handlers.LineMeans` | router/debian/usr/local/sbin/v4gwrd.py:237-247 | A line of four or more fields is a lease for `add` and `old`, a release for `del`, with interface, lower-cased MAC and address in their places, and nothing for any other action |
| `Handlers.ShortLineIsIgnored` | router/debian/usr/local/sbin/v4gwrd.py:237-247 | A line is ignored iff it has fewer than four fields or another action |
| `Text.SpaceTable` | router/debian/usr/local/sbin/v4gwrd.py:238-270 | The code points at which fields and lines are split, as in Python |
| `Text.LowerFoldsCase` | router/debian/usr/local/sbin/v4gwrd.py:241-295 | Lower-casing is blind to case, leaves no capital and changes nothing else |
| `Handlers.EvaluationSolicitsIff` | router/debian/usr/local/sbin/v4gwrd.py:196-209 | An evaluation solicits exactly once when a GUA is derived, the best hop is another and the timer has run out, and otherwise never; what it solicits is that GUA |
| `Handlers.EvaluationTimers` | router/debian/usr/local/sbin/v4gwrd.py:203-209 | The timer stops when the host is on its GUA or has been solicited, and runs on otherwise |
| `Handlers.EvaluationRoutesIff` | router/debian/usr/local/sbin/v4gwrd.py:190-212 | A route is put in iff the best hop is there and differs from the recorded one: for the host's address, through its interface, via that hop, which is then recorded |
| `Handlers.NothingToEvaluate` | router/debian/usr/local/sbin/v4gwrd.py:190-196 | An untracked host, or one whose interface is gone, is left alone |
| `Handlers.LeaseIsRecorded` | router/debian/usr/local/sbin/v4gwrd.py:220-229 | After a lease the host is recorded on its interface and address, its timer ends 15 s later unless it is on its GUA, a renewal keeps the hop, a change starts without one, and other hosts are as before |
| `Handlers.LeaseMovesRoute` | router/debian/usr/local/sbin/v4gwrd.py:220-229 | A changed lease takes the old route out; a renewal with nothing better leaves the routes alone |
| `Handlers.ReleaseForgets` | router/debian/usr/local/sbin/v4gwrd.py:231-235 | A release removes the host and its route; for an untracked MAC nothing happens |
| `Handlers.SettledHostIsSolicited` | router/debian/usr/local/sbin/v4gwrd.py:190-229 | A new host off its GUA at its lease and 15 s or more later has been solicited once |
| `Handlers.SolicitedExactlyOnce` | router/debian/usr/local/sbin/v4gwrd.py:190-229 | On a fresh table, however many evaluations follow, it stays at that one |
| `ShadowRuns.ExactOverRuns` | router/debian/usr/local/sbin/v4gwrd.py:162-235 | Over every run of leases, renewals, releases, neighbour changes and sweeps with one MAC per address, succeeding calls and no foreign flush, the route table is exactly the map from tracked address to interface and recorded next hop |
| `ShadowRuns.TrackedOverRuns` | router/debian/usr/local/sbin/v4gwrd.py:162-235 | Without uniqueness, with failing installs and foreign flushes: no route is ever for an untracked address, given that deletes succeed |
| `ShadowRuns.FreshWorldIsExact` | router/debian/usr/local/sbin/v4gwrd.py:109-113 | The starting state meets both run invariants |
| `ShadowRuns.ExactAfterEvaluateIff` | router/debian/usr/local/sbin/v4gwrd.py:206-212 | The shadow stays exact across an evaluation iff no wanted install was refused |
| `Stickiness.RefusedRouteIsNotRetried` | router/debian/usr/local/sbin/v4gwrd.py:190-229 | After a refused install for a host alone on its address, over every run that keeps the lease and finds no better hop, no operation touches the address and the route stays as the refusal left it |
| `Stickiness.FlushedRouteStaysMissing` | router/debian/usr/local/sbin/v4gwrd.py:190-229 | A route flushed by someone else stays missing over every such run |
| `Stickiness.HopIsSticky` | router/debian/usr/local/sbin/v4gwrd.py:190-229 | A recorded hop that no reading contradicts keeps record and route, and no operation touches the address, over every run that keeps the lease |
| `ShadowRuns.TrackedAfterReleaseIff` | router/debian/usr/local/sbin/v4gwrd.py:179-188 | A release leaves only tracked routes iff the delete worked, there was no route, or someone else holds the address |
| `ShadowRuns.TrackedAfterLeaseIff` | router/debian/usr/local/sbin/v4gwrd.py:220-227 | The same for a changed lease |
| `Sweeps.SweepConverges` | router/debian/usr/local/sbin/v4gwrd.py:190-216 | After `reconcile_all` on one kernel reading, every host with a present interface and a usable neighbour is recorded at the first entry of its best non-empty tier |
| `Sweeps.RepeatedSweepIsQuiet` | router/debian/usr/local/sbin/v4gwrd.py:190-216 | A second sweep on the same reading, at any time, issues no route call |
| `Sweeps.SweptHostsHaveDistinctHops` | router/debian/usr/local/sbin/v4gwrd.py:129-158 | With one MAC per address in the ND cache, no two swept hosts on one interface share a next hop |
| `Stickiness.GuaIsSticky` | router/debian/usr/local/sbin/v4gwrd.py:143-229 | Once on its derived GUA, a host keeps record and route, and no operation touches its address, over every run that leaves that GUA derived and usable |
| `Probes.ProbeAccounting` | router/debian/usr/local/sbin/v4gwrd.py:190-277 | Over every run from an empty table, whatever kernel and disk hold, crashes included: solicitations of a MAC never exceed its lease events plus restored rows, each comes at least 15 s after the latest of those, and none while the best hop is the derived GUA |
| `Probes.HistoryLawful` | router/debian/usr/local/sbin/v4gwrd.py:190-212 | The inductive invariant: an armed timer stands for one unspent entitlement and was set by the latest lease event or restore |
| `Probes.RunArms` | router/debian/usr/local/sbin/v4gwrd.py:220-277 | Timers are started at most once per lease event and once per restored row |
| `NextHop.ChoiceIsFirstOfBestTier` | router/debian/usr/local/sbin/v4gwrd.py:143-158 | The chosen hop is the first usable cache entry of the best non-empty tier (derived GUA, other global or ULA, fe80), and there is none iff no tier has a usable entry |
| `NextHop.ChooseIff` | router/debian/usr/local/sbin/v4gwrd.py:143-158 | An entry is chosen iff it is the first of the best tier |
| `NextHop.CacheComesFromRows` | router/debian/usr/local/sbin/v4gwrd.py:129-141 | Every cached address is in a neighbour row of that interface and MAC |
| `NextHop.CachedStateIsLast` | router/debian/usr/local/sbin/v4gwrd.py:129-141 | An address is cached iff some row of the interface gives it to the MAC, case aside, with the state of the last such row |
| `NextHop.CachedInOrderOfFirstRows` | router/debian/usr/local/sbin/v4gwrd.py:129-141 | Cached addresses stand in the order of their first rows |
| `NextHop.FirstLinkWins` | router/debian/usr/local/sbin/v4gwrd.py:115-117 | The index is that of the first link of the name |
| `NextHop.FirstPrefixWins` | router/debian/usr/local/sbin/v4gwrd.py:119-127 | The prefix is that of the first /64 route of the interface in 2000::/3 or fc00::/7, and there is none iff there is no such route |
| `Inet.GlobalOrUlaIsPrefixes` | router/debian/usr/local/sbin/v4gwrd.py:78-80 | The octet range is exactly 2000::/3 or fc00::/7 |
| `Inet.LinkLocalIsRange` | host/macos/v4gwd-arp.c:142-149 | fe80::/10 is fe80 to febf, and disjoint from the other classes |
| `NextHop.DerivedGuaOctets` | router/debian/usr/local/sbin/v4gwrd.py:83-93 | The derived GUA is the prefix and the modified EUI-64 of the MAC, and there is none iff one of them is missing |
| `NextHop.BestHopFromRows` | router/debian/usr/local/sbin/v4gwrd.py:129-158 | In terms of neighbour rows: the best hop is REACHABLE, STALE, DELAY or PROBE; the derived GUA if that is, else in 2000::/3 or fc00::/7 if any is, else fe80::/16; none iff no such row is of these kinds |
| `ManagerObject.ReadPrefix` | router/debian/usr/local/sbin/v4gwrd.py:119-127 | The loop over routes returns the first global or ULA /64 of the interface |
| `ManagerObject.ReadCache` | router/debian/usr/local/sbin/v4gwrd.py:129-141 | The loop over neighbours builds the specified ordered cache, None when the dump fails |
| `ManagerObject.ReadBestNexthop` | router/debian/usr/local/sbin/v4gwrd.py:143-158 | The search returns the specified best hop and derived GUA |
| `ManagerObject.ReadLiveLeases` | router/debian/usr/local/sbin/v4gwrd.py:282-295 | The loop over the lease file yields the specified set of live pairs |
| `ManagerObject.Manager.Install` | router/debian/usr/local/sbin/v4gwrd.py:162-177 | One install operation on the kernel table |
| `ManagerObject.Manager.Withdraw` | router/debian/usr/local/sbin/v4gwrd.py:179-188 | One withdraw operation on the kernel table |
| `ManagerObject.Manager.UpdateProbe` | router/debian/usr/local/sbin/v4gwrd.py:196-205 | Each branch records what it does: on the GUA the timer is cleared, past it a solicitation is sent and the timer cleared, otherwise nothing happens |
| `ManagerObject.Manager.Evaluate` | router/debian/usr/local/sbin/v4gwrd.py:190-212 | The object performs exactly the operations of an evaluation, in order |
| `ManagerObject.Manager.ReconcileAll` | router/debian/usr/local/sbin/v4gwrd.py:214-216 | The loop performs exactly the operations of a sweep over the hosts present at its start |
| `ManagerObject.Manager.Persist` | router/debian/usr/local/sbin/v4gwrd.py:249-258 | The loop writes every row and renames, or stops exactly where the disk gives out |
| `ManagerObject.Manager.OnLease` | router/debian/usr/local/sbin/v4gwrd.py:220-229 | The object performs exactly the operations of a lease event, in order |
| `ManagerObject.Manager.OnRelease` | router/debian/usr/local/sbin/v4gwrd.py:231-235 | The object performs exactly the operations of a release, in order |
| `ManagerObject.Manager.HandleLine` | router/debian/usr/local/sbin/v4gwrd.py:237-247 | A line is split, lower-cased and dispatched; short or unknown lines do nothing |
| `ManagerObject.Manager.Restore` | router/debian/usr/local/sbin/v4gwrd.py:260-279 | The loop over the state file performs exactly the operations of a restart |
| `Framing.FramingIsChunkIndependent` | router/debian/usr/local/sbin/v4gwrd.py:314-330 | For every cut of the stream into reads, interleaved with sweeps and read errors, the handled lines are the newline split of the whole stream in order and the buffer is its residue |
| `Framing.SplitIsExact` | router/debian/usr/local/sbin/v4gwrd.py:328-329 | Joining the lines and residue gives the stream back, and neither holds the octet 10 |
| `Framing.SplitIsUnique` | router/debian/usr/local/sbin/v4gwrd.py:328-329 | No other lines and residue join to the stream |
| `Framing.SplitConcat` | router/debian/usr/local/sbin/v4gwrd.py:325-329 | Appending bytes only adds lines; the residue carries all that is pending |
| `Framing.OneSweepPerCall` | router/debian/usr/local/sbin/v4gwrd.py:316-339 | Every poll timeout and every monitor event brings exactly one sweep |
| `Framing.Server.OnReadable` | router/debian/usr/local/sbin/v4gwrd.py:323-330 | The inner loop terminates, hands every completed line to `handle_line` in order and keeps a residue without newline |
| `Eui64.OrIsConcatenation` | router/debian/usr/local/sbin/v4gwrd.py:83-93 | For every /64 and MAC the 128-bit OR is the concatenation of prefix and interface identifier |
| `Eui64.DerivedGuaRecovers` | router/debian/usr/local/sbin/v4gwrd.py:78-93 | The derived address stays in its prefix, is global or ULA iff the prefix is, and gives the MAC back |
| `Eui64.DerivedGuaInjective` | router/debian/usr/local/sbin/v4gwrd.py:83-93 | Equal derived addresses have equal prefix and MAC |
| `Eui64.ValueRoundTrip` | router/debian/usr/local/sbin/v4gwrd.py:83-93 | Reading an address as a 128-bit integer and back is the identity |
| `ShellHook.PeelMac` | router/debian/usr/local/sbin/v4gw-lease.sh:55-57 | Peeling by parameter expansion yields the six fields of every MAC text |
| `ShellHook.GuaText` | router/debian/usr/local/sbin/v4gw-lease.sh:50-62 | The text is the prefix followed by the four interface-identifier groups |
| `ShellHook.HookGroupOctets` | router/debian/usr/local/sbin/v4gw-lease.sh:58-59 | The four groups spell the modified EUI-64 that the daemon computes |
| `ShellHook.MacParses` | router/debian/usr/local/sbin/v4gwrd.py:83-93 | The daemon parses the same MAC text to the octets the hook writes |
| `ShellHook.HookAgreesIff` | router/debian/usr/local/sbin/v4gw-lease.sh:50-62 | The hook's text denotes the daemon's derived address when the prefix has at most three groups before `::`, and nothing when it has four |
| `Selection.FreebsdSelect` | host/freebsd/v4gwd.c:125-171 | The loop returns the interface's (highest rank, lowest address) optimum, reserved ranked below low |
| `Selection.FreebsdChoiceByFlags` | host/freebsd/v4gwd.c:100-171 | In terms of the RA flags: a router is chosen iff the interface has one, none beats it in the order high, medium, low, reserved, and none with equal flags has a lower address |
| `Selection.NetworkdSelect` | host/systemd-networkd/0001-network-support-IPv6-resolved-IPv4-gateway-192.0.0.1.patch:143-183 | The loop returns the same optimum over non-reserved routers, unreadable preference counting as medium |
| `Selection.NetworkdChoiceByPreference` | host/systemd-networkd/0001-network-support-IPv6-resolved-IPv4-gateway-192.0.0.1.patch:118-183 | In terms of the preference value: only high, medium (or unreadable) and low are chosen, in that order, lowest address among equals, and none iff all are reserved |
| `Selection.FreebsdOrderIndependent` | host/freebsd/v4gwd.c:125-171 | Every permutation of the router list gives the same choice |
| `Selection.NetworkdOrderIndependent` | host/systemd-networkd/0001-network-support-IPv6-resolved-IPv4-gateway-192.0.0.1.patch:143-183 | Every permutation of the routers gives the same choice |
| `Selection.SelectionsAgreeIff` | host/freebsd/v4gwd.c:100-171 | The two loops agree iff the interface has no router or some non-reserved one |
| `Inet.BeforeIsFirstDifference` | host/freebsd/v4gwd.c:158-160 | An address is lower iff its octet is lower at the first difference |
| `Selection.FreebsdTakesReservedIff` | host/freebsd/v4gwd.c:155-164 | FreeBSD takes a reserved router iff the interface has only such routers |
| `Selection.ReservedOnlyExample` | host/freebsd/v4gwd.c:155-164 | A single reserved router is taken by FreeBSD and refused by networkd |
| `Selection.LinuxSelect` | host/v4gwd.py:175-189 | The loop returns the last (preference, REACHABLE)-maximal router in dump order |
| `Selection.LinuxChoiceByPreference` | host/v4gwd.py:83-189 | In terms of RTA_PREF: high is beaten only by high, low is chosen only when all are low, and among equal preferences a REACHABLE router beats the others |
| `Selection.RanksOfValidPreferences` | host/v4gwd.py:83-184 | The three valid preferences rank as in networkd; the reserved one counts as medium here and as ineligible there |
| `Selection.LinuxBestIsLastMaximal` | host/v4gwd.py:175-189 | The specification is that last maximal router, and there is none iff no route has a gateway |
| `Selection.LinuxOrderIndependentIff` | host/v4gwd.py:175-189 | The Linux choice is the same for every dump order iff all maximal routers share one gateway |
| `Selection.LinuxOrderMattersExample` | host/v4gwd.py:175-189 | Two routers of equal key: the choice is whichever is dumped last |
| `LinuxNative.LinuxRunSafety` | host/v4gwd.py:150-314 | After every reconcile of a fair run our default exists iff the gate is open and a router is selectable, it points at the selected one, every other route is as others left it, and shutdown then leaves none of ours |
| `LinuxNative.WantedRoutes` | host/v4gwd.py:150-220 | Route by route: our default is wanted iff the interface is there, a foreign default via 192.0.0.11 too where required, and a router is selected; it has protocol 199, the configured metric and the selected gateway |
| `LinuxNative.RefusedCalls` | host/v4gwd.py:207-290 | When every kernel call fails the table stays, a failed install is not recorded and a failed withdrawal is forgotten |
| `LinuxNative.ReconcileReachesWanted` | host/v4gwd.py:292-314 | One successful reconcile from a coherent state puts exactly the wanted route in place and touches no foreign route |
| `LinuxNative.ShutDownLeavesNothing` | host/v4gwd.py:388-390 | Shutdown removes our route and no other |
| `LinuxNative.OpenGateIff` | host/v4gwd.py:207-220 | With the gate open the outcome is right iff the shadow does not already claim it or the kernel bears it out |
| `LinuxNative.ClosedGateIff` | host/v4gwd.py:264-290 | With the gate closed or no router, nothing of ours remains iff there was nothing or the shadow knows of it |
| `LinuxNative.FlushedRouteExample` | host/v4gwd.py:207-220 | Reconcile, flush, reconcile from the start: the route is wanted and missing |
| `LinuxNative.LeftoverRouteExample` | host/v4gwd.py:264-304 | Install, kill, sentinel gone, restart: the old route is unwanted and still there |
| `LinuxNative.ReadSentinel` | host/v4gwd.py:150-156 | The scan finds a foreign default via the sentinel on the interface iff there is one |
| `LinuxNative.Interface.Reconcile` | host/v4gwd.py:292-314 | The object's reconcile is the specified step |
| `LinuxNative.Interface.Stop` | host/v4gwd.py:388-390 | The shutdown loop's work on one interface is the specified step |
| `StaticNeighbor.PinToStabilises` | host/v4gwd.py:239-256 | From any kernel and shadow state one pin is enough, other entries are untouched, and a second pin changes nothing |
| `StaticNeighbor.DynamicEntryIsReplaced` | host/v4gwd.py:224-237 | A dynamic entry with the right MAC is not accepted as the pin |
| `StaticNeighbor.ReconcileStabilises` | host/macos/v4gwd-arp.c:571-620 | With the router resolved, one successful reconcile from any state ends pinned, and the next needs no kernel write and changes nothing |
| `StaticNeighbor.PinProvenance` | host/macos/v4gwd-arp.c:571-620 | From an empty cache, across restarts, network moves and failing writes, every MAC to be pinned was read from ND in this reconcile or earlier under the same own MAC, and every permanent sentinel entry carries a MAC read from ND |
| `StaticNeighbor.AccountedOverRuns` | host/windows/v4gwd.c:466-509 | The provenance invariant of cache and neighbour table over every run |
| `StaticNeighbor.CacheIsLastReading` | host/windows/v4gwd.c:466-509 | When cache writes succeed, the entry of an own MAC is the latest router MAC read under it |
| `StaticNeighbor.RememberedMacIsPinned` | host/macos/v4gwd-arp.c:614-618 | After any run with succeeding cache writes, one more reconcile with the router unresolved pins the latest MAC read under the same own MAC |
| `StaticNeighbor.UnknownNetworkCedes` | host/windows/v4gwd.c:498-508 | Where none was read, or the own MAC is unknown, the pin the daemon knows of is withdrawn |
| `StaticNeighbor.ShutWithdraws` | host/macos/v4gwd-arp.c:584-591 | A shut gate withdraws the pin the daemon knows of and forgets it whatever the kernel says |
| `StaticNeighbor.GoneForgets` | host/windows/v4gwd.c:474-481 | A vanished interface only makes the daemon forget |
| `StaticNeighbor.RefusedPinKeepsShadow` | host/windows/v4gwd.c:376-415 | A refused pin leaves what the daemon believes and every other entry, and the reading is remembered all the same |
| `StaticNeighbor.CedeIff` | host/macos/v4gwd-arp.c:601-619 | Unresolved and unknown: a permanent entry remains iff the daemon did not know of it |
| `StaticNeighbor.ForgottenPinExample` | host/macos/v4gwd-arp.c:601-619 | Pin, restart, unresolved reconcile: the pin is still there |
| `PinDaemons.FirstEntryIs` | host/macos/v4gwd-arp.c:283-334 | Scanning to the first row for the sentinel decides whether the permanent entry is there; an unreadable table counts as absent |
| `PinDaemons.SomeEntryIs` | host/v4gwd.py:224-237 | Scanning for any permanent row decides the same |
| `PinDaemons.MacDefaultRouter` | host/macos/v4gwd-arp.c:155-211 | The first IPv6 default on the interface, scope octets cleared, and none iff there is none |
| `PinDaemons.WindowsDefaultRouter` | host/windows/v4gwd.c:256-291 | The first of the lowest-metric IPv6 defaults on the interface |
| `PinDaemons.ReadRouterMac` | host/macos/v4gwd-arp.c:213-276 | The first resolved ND entry for the gateway, and none iff there is none |
| `PinDaemons.DefaultViaFields` | host/windows/v4gwd.c:269-276 | The row tests field by field, and the two platforms agree on usable routes whose length is zero exactly for :: |
| `PinDaemons.ResolvesFields` | host/macos/v4gwd-arp.c:243-270 | A row resolves the gateway iff it is the interface's, has six octets and the gateway's address, scope octets aside on macOS |
| `PinDaemons.MacObserve` | host/macos/v4gwd-arp.c:571-600 | A router MAC comes from an ND row for the gateway of a default route on the interface |
| `PinDaemons.WindowsObserve` | host/windows/v4gwd.c:466-495 | The same for Windows |
| `PinDaemons.LinuxStatic.PinNeighbor` | host/v4gwd.py:239-256 | Refines the pin specification; a write is issued iff the pin is not already in place |
| `PinDaemons.LinuxStatic.Reconcile` | host/v4gwd.py:292-314 | Static mode from the route tables: vanished interface, closed gate, no router, unresolved router and pin, each as specified; a kernel write is issued iff one is needed |
| `PinDaemons.ArpDaemon.Install` | host/macos/v4gwd-arp.c:368-399 | Refines the pin specification; a write is issued iff the pin is not already in place |
| `PinDaemons.ArpDaemon.Withdraw` | host/macos/v4gwd-arp.c:401-417 | Removes a pin the daemon knows of and forgets it |
| `PinDaemons.ArpDaemon.Reconcile` | host/macos/v4gwd-arp.c:571-620 | The macOS reconcile refines the common step on the abstract cache, failed cache writes leaving any temporary file; a kernel write is issued iff one is needed |
| `PinDaemons.WindowsDaemon.Install` | host/windows/v4gwd.c:376-415 | Delete, create and set refine the pin specification; a write is issued iff the pin is not already in place |
| `PinDaemons.WindowsDaemon.Withdraw` | host/windows/v4gwd.c:417-429 | Removes a pin the daemon knows of and forgets it |
| `PinDaemons.WindowsDaemon.Reconcile` | host/windows/v4gwd.c:466-509 | The Windows reconcile refines the same step; a kernel write is issued iff one is needed |
| `RouterCache.PrintThenScan` | host/macos/v4gwd-arp.c:362-366 | Printing then scanning is the identity on all MACs, in the colon/lower and hyphen/upper forms, whatever follows |
| `RouterCache.MacTextInjective` | host/windows/v4gwd.c:141-147 | Distinct MACs have distinct texts |
| `RouterCache.MacTextDigits` | host/windows/v4gwd.c:134-147 | Each octet is two digits, most significant first, lower-case with colons and upper-case with hyphens |
| `RouterCache.NamedEntryIsRead` | host/macos/v4gwd-arp.c:490-517 | The file named by the own MAC under /var/db/v4gwd-arp is read, and without it there is no entry |
| `RouterCache.NamedValueIsRead` | host/windows/v4gwd.c:216-233 | The registry value named by the own MAC is read, and without it there is no entry |
| `RouterCache.PathsNeverCollide` | host/macos/v4gwd-arp.c:490-499 | Distinct own MACs have distinct paths, and no path is a temporary name |
| `RouterCache.TmpIsInvisible` | host/macos/v4gwd-arp.c:520-539 | Whatever the temporary file holds, every lookup answers as without it |
| `RouterCache.FilePutThenLookup` | host/macos/v4gwd-arp.c:500-539 | A put that is stored is read back under its key and changes no other; one that is not opened or not renamed changes none |
| `RouterCache.ShortWriteReadsBackIff` | host/macos/v4gwd-arp.c:520-539 | A short write that is renamed nevertheless: the entry reads back iff its first seventeen characters are there, or sixteen of a MAC whose last octet is zero, names the MAC without its last digit at sixteen characters, and is a miss below |
| `RouterCache.RegistryPutThenLookup` | host/windows/v4gwd.c:216-247 | A registry put is read back under its key and changes no other |
| `RouterCache.FirstLineStops` | host/macos/v4gwd-arp.c:504-511 | An entry is read up to its first newline or 31 characters |
| `RouterCache.UnchangedPutWritesNothing` | host/macos/v4gwd-arp.c:527-528 | Storing what is stored already touches neither store |
| `RouterCache.StoresRefineMap` | host/windows/v4gwd.c:216-247 | After any sequence of puts both stores answer as a map from own MAC to router MAC does |
| `RouteSocket.RoundUpIsLeastMultiple` | host/macos/v4gwd-arp.c:78-79 | No smaller positive multiple of the alignment holds the length |
| `RouteSocket.RoundUpBounds` | host/macos/v4gwd-arp.c:78-79 | `ROUNDUP` gives a positive multiple at or above the length |
| `RouteSocket.OrLowIsBitwiseOr` | host/macos/v4gwd-arp.c:78-79 | The arithmetic form equals the macro's bitwise OR for every length byte |
| `RouteSocket.GetRtiInfo` | host/macos/v4gwd-arp.c:127-139 | Recovers every sockaddr packed under any bitmask, at an offset inside the message, and none for a clear bit |
| `RouteSocket.BitIsMask` | host/macos/v4gwd-arp.c:131-135 | A slot is announced iff its bit of the address mask is set |
| `RouteSocket.StripUndoesEmbedIff` | host/freebsd/v4gwd.c:178-194 | Stripping undoes embedding iff the scope octets said nothing of their own |
| `RouteSocket.RouteMsg` | host/freebsd/v4gwd.c:196-240 | The three copies into the zeroed buffer lay out exactly the packed default destination, gateway and netmask |
| `RouteSocket.MessageOctets` | host/freebsd/v4gwd.c:178-240 | The message octet by octet: two empty sockaddr_in around a padded sockaddr_in6 whose address carries the interface index in octets 2 and 3 for link-local gateways only |
| `RouteSocket.ReadDefault` | host/freebsd/v4gwd.c:422-450 | The reader loop finds destination and gateway of that message |
| `RouteSocket.WriteThenRead` | host/freebsd/v4gwd.c:178-240 | A unicast gateway with zero scope octets is read back as it was written |
| `FreebsdGate.StateFileGateIsSteady` | host/freebsd/v4gwd.c:242-489 | Gate held open and the choice unchanged, whatever else each round reads: from any slot, once one install succeeds, any number of reconciles keeps the default at the router; one message in all on an empty slot, two to take a default over |
| `FreebsdGate.DefaultFollowsRouter` | host/freebsd/v4gwd.c:242-489 | The router may change from round to round: slot and shadow follow it, one message per change |
| `FreebsdGate.RefusalChangesNothing` | host/freebsd/v4gwd.c:242-271 | A refused message changes neither slot nor shadow |
| `FreebsdGate.CeasingWithdraws` | host/freebsd/v4gwd.c:470-488 | With the state file gone, or no router and no static default, a known route is deleted and forgotten, and without one nothing is sent |
| `FreebsdGate.NothingInstalledWhileCeased` | host/freebsd/v4gwd.c:459-489 | While that lasts no round installs |
| `FreebsdGate.ForeignDefaultShutsFibGate` | host/freebsd/v4gwd.c:474-477 | The FIB gate ceases in the same way while the default is not 192.0.0.11 |
| `FreebsdGate.GoneForgets` | host/freebsd/v4gwd.c:464-468 | A vanished interface only makes the daemon forget |
| `FreebsdGate.AdvertisedBeforeStatic` | host/freebsd/v4gwd.c:479-488 | A static default serves only when the interface has no advertised router |
| `FreebsdGate.FibGateErasesItself` | host/freebsd/README.md:33-38 | With the FIB gate one reconcile that finds a router installs, the next withdraws, and over all later rounds without a DHCP reinstall there is no default |
| `FreebsdGate.InstallReachesIff` | host/freebsd/v4gwd.c:242-271 | An install ends with the route in place iff the shadow is not wrong about it and a change has something to change |
| `FreebsdGate.FlushedRouteStaysMissing` | host/freebsd/v4gwd.c:242-271 | A default flushed behind the daemon's back stays missing over all rounds that find some router |
| `FreebsdGate.FlushAfterInstallExample` | host/freebsd/v4gwd.c:242-271 | Start, one successful reconcile, flush: no later round repairs it |
| `FreebsdGate.StaticDefaultRouter` | host/freebsd/v4gwd.c:388-457 | The first static IPv6 default of the interface, scope octets cleared |
| `FreebsdGate.StaticDefaultFields` | host/freebsd/v4gwd.c:413-444 | A row counts iff it is a static gateway route of the interface to the unspecified address |
| `FreebsdGate.Daemon.Install` | host/freebsd/v4gwd.c:242-271 | Add or change, with change after EEXIST or EINVAL, is the specified step |
| `FreebsdGate.Daemon.Withdraw` | host/freebsd/v4gwd.c:273-289 | Deletes a known route and forgets it whatever the reply |
| `FreebsdGate.Daemon.Reconcile` | host/freebsd/v4gwd.c:459-489 | Gate, advertised router, static fallback, or withdrawal, as specified |
| `Networkd.SweepAndFrame` | host/systemd-networkd/0001-network-support-IPv6-resolved-IPv4-gateway-192.0.0.1.patch:203-281 | An update with a next hop leaves resolved defaults on the link only via that hop, at least one, and touches no route of another link, source, family or prefix |
| `Networkd.UpdateTouchesOnly` | host/systemd-networkd/0001-network-support-IPv6-resolved-IPv4-gateway-192.0.0.1.patch:238-263 | A route of another source, link, family, prefix length or next-hop family is untouched, and a new one carries the lease address |
| `Networkd.UpdateReturnsEarly` | host/systemd-networkd/0001-network-support-IPv6-resolved-IPv4-gateway-192.0.0.1.patch:203-314 | Without a lease, with a setting off, under classless routes, for another router option, on an old kernel, without a lease address, and without a router in the canonical patch, nothing happens |
| `Networkd.UpdateSweeps` | host/systemd-networkd/0001-network-support-IPv6-resolved-IPv4-gateway-192.0.0.1.patch:203-314 | In every other case the resolved defaults of the link afterwards are those via the chosen router, or fe80::c000:c for the placeholder, with the new one among them |
| `Networkd.DeferralKeepsStaleIff` | host/systemd-networkd/0001-network-support-IPv6-resolved-IPv4-gateway-192.0.0.1.patch:203-281 | After a run from a clean link that ends in an update finding no router, the link has a resolved default, that of its last chosen router, iff some earlier update of the link had chosen one |
| `Networkd.VanishedRouterExample` | host/systemd-networkd/0001-network-support-IPv6-resolved-IPv4-gateway-192.0.0.1.patch:221-230 | A router appears and vanishes: its default is still there |
| `Networkd.RunSettles` | host/systemd-networkd/0001-network-support-IPv6-resolved-IPv4-gateway-192.0.0.1.patch:203-314 | Every run, with updates of other links and early returns in between: a link's resolved defaults all go to the hop of its latest sweep and there is one, or are untouched before any |
| `Networkd.RunFrame` | host/systemd-networkd/0001-network-support-IPv6-resolved-IPv4-gateway-192.0.0.1.patch:238-263 | Every run leaves each route that is no updated link's resolved default as it was |
| `Networkd.CanonicalRun` | host/systemd-networkd/0001-network-support-IPv6-resolved-IPv4-gateway-192.0.0.1.patch:203-314 | Over every run in which the link was swept, its resolved defaults all go to the router chosen by its latest sweep, and there is one |
| `Networkd.PlaceholderRun` | host/systemd-networkd/experimental/placeholder-nexthop-during-deferral.patch:20-37 | With the placeholder, after every run that ends in an update of the link that applies, router list empty or not, its resolved defaults all go to the chosen router or the placeholder, and there is one |
| `Networkd.NextRaReplacesPlaceholder` | host/systemd-networkd/experimental/placeholder-nexthop-during-deferral.patch:20-37 | After the next update with a router no default goes to the placeholder |
| `Networkd.Manager.DropStale` | host/systemd-networkd/0001-network-support-IPv6-resolved-IPv4-gateway-192.0.0.1.patch:238-263 | Collecting then removing takes out exactly the stale set |
| `Networkd.Manager.Update` | host/systemd-networkd/0001-network-support-IPv6-resolved-IPv4-gateway-192.0.0.1.patch:283-314 | The update with its early returns is the specified step |

## Assumptions about kernels and disks

- A proto-149 route is keyed by its /32; `replace` overwrites it and `del` removes it.
- Linux `replace` of a default displaces a default at the same metric; several managed interfaces at
  one metric are not claimed to coexist.
- FreeBSD has one IPv4 default slot; RTM_ADD on a taken slot fails with EINVAL for an IPv4 gateway
  and EEXIST otherwise, RTM_CHANGE and RTM_DELETE on an empty slot fail with ESRCH.
- An IPv4 neighbour table has one entry per interface and address.
- A crash is the death of the process: completed writes and the rename survive it. Loss of power
  before the data reaches the disk is not modelled.
- Interfaces may come and go in `ShadowRuns`, but a name keeps its index.

## Left out

- Netlink, sysctl, IP Helper and arp(8) calls are operations on an abstract table with a success or failure result.
- Poll loops, signals, wakeup pipes, service glue, logging, argument parsing and dry-run reports are not modelled.
- Timing liveness ("self-heals within RECONCILE_SEC") is not modelled: there is no scheduler.
- `host/windows/v4gwd.ps1`, configuration files, lab scripts and everything under `legacy/` are not modelled.
- The rest of `v4gw-lease.sh`, its neighbour matching in awk and its ping probes, is not modelled.
- `kick_nud` is an operation of the history; what the kernel then resolves is a later kernel reading.
- After a successful `install`, `v4gwrd.py` also deletes the kernel's IPv4 neighbour for the leased address (router/debian/usr/local/sbin/v4gwrd.py:173-177); that table is not modelled.
- One handler call meets one kernel reading and one clock reading; a sweep in a run is a sequence of evaluations, each with its own.
- In Linux native mode, soliciting a router whose neighbour state is unusable changes no modelled state and is omitted.
- Addresses are sixteen octets; the kernel's textual IPv6 addresses are taken to be canonical, so equal texts are equal addresses.
- UTF-8 decoding of FIFO bytes is a parameter of `Framing.Server`.
- `Text.Lower`: lower-cases ASCII letters only.
- `Eui64.OctetFromHex`: plain hexadecimal digits only, not the sign, prefix and underscore forms Python's int() also accepts.
- `RouterCache.ScanFields`: no leading white space, sign or 0x prefix, and no saturation on overlong digit runs.
- `ShellHook.GuaText`: an octet that is not hexadecimal ends the hook without an address; shell arithmetic on other text is not modelled.
- `StaticNeighbor.PinProvenance`: one interface and sentinel key for the whole run, and no cache entry published by a short write; `RouterCache.ShortWriteReadsBackIff` says what such an entry reads as.
- `PinDaemons.MacObserve` and `PinDaemons.WindowsObserve`: the gate, from the FIB or a state file, and the interface's own MAC are inputs; their scans of system tables are not modelled.
- `PinDaemons.LinuxStatic.Reconcile`: the ND cache is a function from an address to its MAC.
- `Networkd.Manager.Update`: memory exhaustion between the collect and remove loops is not modelled, and a requested route is taken to be installed.
- The sentinel state file is a flag; reading it and matching the address text is not modelled.
