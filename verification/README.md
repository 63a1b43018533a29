# Verified model of the noeio routing core

This project models, in Dafny 4.11, how noeio moves routes from a host's report
through the relay (derper) to every node, and from a node's router into its
kernel, and proves what that machinery promises. The parts:

- **Prefixes** (`Bits`, `Cidr`, `Words`): 32-bit words by halving, and IPv4
  prefixes (section 3.1 of RFC 4632) as an address and a length compared by
  their top bits.
- **Consumer pipeline** (`RoutePolicy`, `RouteTable`, `RouterState`, `Router`,
  `KernelMirror`, `CleanPass`, `MirrorHistory`, `Reconciler`, `RouteAgreement`,
  `Daemon`): the blacklist and exit election, the sorted table answering
  longest-prefix match (section 5.1 of RFC 4632), the two-index router, the
  reconciler that drives a kernel whose calls may fail, when its record stays in
  step with that kernel, and the proof that kernel and lookup answer every address
  alike.
- **Synchronisation protocol** (`PeerCache`, `Relay`, `SyncProtocol`,
  `SyncExpiry`): the relay's timed cache with tombstones, its broadcasts, and the
  whole protocol over a network that reorders and duplicates, first among peers
  that stay and then among peers that expire and return.
- **Paths** (`UdpSession`, `HolePunch`, `PunchProgress`, `PathSelection`, `Peers`):
  the session's tasks as atomic steps, two sessions under every interleaving and
  what they get done, the debounced selector over whole runs, and the session set
  of a peer.
- **Advertiser side** (`Nftables`, `Cover`, `Forwarding`): the ruleset compiler
  with a register-machine semantics and what the whole table does to a packet,
  the least covering prefix, and the sysctl save across crashes.
- **Text** (`Text`, `StateFile`, `PeerText`): the route state file and the
  comma/bar PeerInfo entry.

Code that changes state is a class or a method here, proved against a function
on values; the results are lemmas about those functions and about runs of them.

How outside things enter. Kernel calls, file writes, hash-map order, timers and
random nonces are nondeterministic choices. A kernel may answer "already exists"
because of any route to the prefix, as Linux does for one of the same metric.
smoltcp's `Ipv4Cidr` is an address and a length, ordered by address and then
length; a moka cache is a timed map in which an insert resets the age, an expired
entry is absent, and every disappearance notifies once (an insert over an expired
entry notifies first); the standard library's sort is an insertion sort.
Addresses, network ids and socket addresses in the PeerInfo text are printed and
parsed by library codecs, which are parameters with the law that parsing undoes
printing; prefixes and integers are printed and parsed concretely.

Three places where the code differs from its comments: the reconciler compares
with its own record, so it does not re-add a route deleted from outside
(noeio/src/daemon/reconciler.rs:141 against the comment at 12-15); a tombstone
is applied without a version check, so versions rise only between tombstones
(noeio/src/daemon.rs:258-275); a repeated pong for the latest ping stores a new
sample (noeio/src/tunnel/session/udp.rs:260-268). The model follows the code.

Where a promise is not unconditional, the exact condition is proved:

- The kernel's longest route and the lookup name the same nic if and only if no
  accepted /32 equals another peer's overlay address with its exit on another
  nic (`RouteAgreement.EgressAgreesIff`, with `HostClashHappens` as the case that
  fails).
- Whatever order a reconciler pass takes and whichever of its calls fail, record
  and kernel stay in step if and only if no leftover to be removed, whose nic is no
  longer registered, shares its prefix with a recorded route of a registered nic;
  no prefix to be added has a kernel route already; and none is wanted through two
  nics (`KernelMirror.PassKeepsMirrorIff`). Leftovers arise at every restart,
  because a nic gets a new random id (noeio/src/daemon.rs:348), and removing one has
  no interface to filter by; `KernelMirror.LeftoverTakesTheLiveRoute` is a history
  in which that takes the live route of the new nic, and no later pass restores
  it. `KernelMirror.FailedRemovalHidesTheNewRoute` is another, in which "already
  exists" stands for a route through the wrong nic.
- Passes whose removals all succeed keep record and kernel in step if and only if no
  such leftover shares its prefix with a registered nic's route that stays; no
  prefix to be added is wanted through two nics; and each of them is cleared: the
  kernel has no more routes to it than leftovers to be removed there, or every route
  to it is that of a registered nic's key to be removed
  (`CleanPasses.CleanPassKeepsMirrorIff`). Over a node's whole life, with nics that
  come under new ids and go, and restarts, that always holds if nobody else routes
  the mesh's prefixes and each is wanted through one nic at a time
  (`MirrorHistory.LifeStaysInStep`).
- Restoring a route file that broke off adds nothing that was not persisted, unless
  the cut took one digit of a two-digit prefix length and the wider route this names
  was not persisted (`StateFile.TornState`).
- Once everything is sent and delivered, a node's router agrees with the relay about
  a peer that may have expired and returned if and only if the packets about it came
  in order (`SyncExpiry.InLineIffInOrder`): a tombstone has no version, so a late one
  removes a live peer (`SyncExpiry.LateTombstoneUndoes`), and a late report brings
  back a dead one (`SyncExpiry.LateReportRevives`).
- The router's two maps stay exact inverses if and only if no incoming id is
  already held at another IP (`RouterState.ApplyKeepsIndexExactIff`, with
  `ConflictHidesTheOldHolder`).
- The PeerInfo text gives back the same value if and only if it has no routes
  and is not withdrawn (`PeerText.PeerRoundTripIff`).
- A finished restore gives the sysctl's original value back if and only if it was off
  or no save was torn on the way (`Forwarding.RestoresOriginalIff`); a torn save of
  "on" loses it for good (`Forwarding.TornSaveLosesOn`).

## Model

| member | source | states |
|---|---|---|
| Cidrs.ContainsIsRange | noeio/src/daemon/routes.rs:91-118 | The top-bits test is membership in the block of `2^(32-len)` addresses from the network address |
| Cidrs.NetworkKeepsMembers | noeio/src/daemon/routes.rs:81-87 | Normalising host bits keeps the members and is idempotent |
| Cidrs.SharedAddressNests | noeio/src/daemon/routes.rs:201-204 | Prefixes with a common address nest, shorter outside |
| Cidrs.OverlapsIffShared | noeio/src/daemon/routes.rs:253-256 | The overlap test holds iff two prefixes share an address |
| RoutePolicy.ValidateCidr | noeio/src/daemon/routes.rs:91-118 | The early-return loops find the first broken rule, with its address |
| RoutePolicy.ReservedIsOverlap | noeio/src/daemon/routes.rs:95-102 | The four point tests are exactly overlap with 127/8 or 169.254/16 for /8 and longer |
| RoutePolicy.RulePassesIffUnprotected | noeio/src/daemon/routes.rs:229-256 | The prefix rules pass exactly the prefixes of length 8 or more that contain no protected address |
| RoutePolicy.AcceptedHoldsNothingProtected | noeio/src/daemon/routes.rs:204-251 | No address of an accepted prefix is local, self-advertised, reserved, an own overlay address or a control-plane server |
| RoutePolicy.ElectPrimaries | noeio/src/daemon/routes.rs:216-223 | The map holds, for every advertised prefix, its lowest advertiser |
| RoutePolicy.Decide | noeio/src/daemon/routes.rs:204-251 | The loops yield one decision per advertisement, each as the rules in priority order give it |
| RoutePolicy.ReasonMeaning | noeio/src/daemon/routes.rs:204-250 | Which reason each advertisement is rejected for, in priority order, in terms of shared and protected addresses and lower advertisers; PolicyOff iff routes are off |
| RoutePolicy.ElectionIsTotal | noeio/src/daemon/routes.rs:216-250 | Per prefix, one prefix-wide rule rejects all, or exactly the lowest id is active and the rest stand by |
| RoutePolicy.DroppingAPeerIsLocal | noeio/src/daemon/routes.rs:216-250 | Dropping a peer changes others only where it was active, and there only the next-lowest id, from standby to active |
| RouteTable.CanonicalDependsOnElements | noeio/src/daemon/router.rs:111-120 | Sorting and deduplicating forgets order and repetition of the input |
| RouteTable.ScanIsLongestMatch | noeio/src/daemon/router.rs:91-120 | The first match in the sorted table is of maximal length among all entries, or there is none |
| RouteTable.ScanIsBruteForce | noeio/src/daemon/router.rs:91-120 | With one exit per prefix the scan equals the brute-force maximum over the unsorted entries |
| RouteTable.AcceptedMeaning | noeio/src/daemon.rs:206-211 | An entry is accepted iff routes are on, no prefix rule hits and its exit is the lowest advertiser |
| RouteTable.TableIsCanonical | noeio/src/daemon.rs:170-213 | Any permutation or repetition of the advertisements gives the identical table, one exit per prefix |
| RouteTable.TableAnswersLikeBruteForce | noeio/src/daemon/router.rs:91-120 | The decided table answers every address as the brute-force maximum |
| RouterState.ApplyKeepsIndexSound | noeio/src/daemon.rs:257-307 | Every index entry still leads to a stored peer with that id and IP key |
| RouterState.ApplyKeepsIndexExactIff | noeio/src/daemon.rs:257-307 | From exact inverses, a SyncRoute keeps exact inverses iff its id is not held at another IP |
| RouterState.RunKeepsIndex | noeio/src/daemon/router.rs:45-72 | The same over every run of inserts, updates, tombstones and refreshes |
| RouterState.ConflictHidesTheOldHolder | noeio/src/daemon/router.rs:45-53 | A concrete run in which an id moves to a new IP and its old holder stays without an index entry |
| RouterState.VersionsRise | noeio/src/daemon.rs:276-296 | Except by a tombstone, the version at an IP never falls and an equal version changes nothing |
| RouterState.ReportMeaning | noeio/src/daemon.rs:276-306 | A report is stored iff its address is unknown or its version higher; then its id resolves to it, an id it displaces no longer resolves, and nothing else changes |
| RouterState.SourceIsAllowedIff | noeio/src/daemon/router.rs:132-141 | A packet's source is allowed iff it is the peer's own address or lies in a block the peer advertises |
| RouterState.TombstoneRemovesEverything | noeio/src/daemon.rs:258-275 | A tombstone removes the peer and its subnets, nothing of others, and is then a no-op |
| Routers.Router.Insert | noeio/src/daemon/router.rs:45-53 | The shared objects and both indexes change as the value-level insert says |
| Routers.Router.UpdateInfo | noeio/src/daemon/router.rs:64-72 | Refreshing the shared peer in place moves its index entry along |
| Routers.Router.Lookup | noeio/src/daemon/router.rs:91-106 | The peer returned is the one the value-level lookup names |
| Routers.Router.SetSubnets | noeio/src/daemon/router.rs:111-120 | The table becomes the canonical form of the entries |
| Routers.Router.Remove | noeio/src/daemon/router.rs:145-154 | Peer, index entry and exits go together |
| Routers.Router.RemoveByPeerId | noeio/src/daemon/router.rs:157-160 | The same through the index |
| Routers.Router.All | noeio/src/daemon/router.rs:168-173 | Every stored peer once, in arbitrary order |
| StateFile.ParseShowCidr | noeio/src/daemon/reconciler.rs:219-222 | Parsing a printed prefix gives it back |
| StateFile.ParseShowLine | noeio/src/daemon/reconciler.rs:235-241 | Parsing a printed line gives its route back |
| StateFile.StateRoundTrip | noeio/src/daemon/reconciler.rs:184-241 | Parsing the text of any listing of a route set gives the set back |
| Reconcilers.Desired | noeio/src/daemon/reconciler.rs:63-83 | The loops collect a host route and the normalised subnets of every peer whose nic is registered |
| Reconcilers.Kernel.AddRoute | noeio-net-route/src/lib.rs:29-37 | A call adds the route; or answers "already exists" because of some route to the same prefix, through whatever interface; or fails and changes nothing |
| Reconcilers.Kernel.DeleteRoute | noeio-net-route/src/lib.rs:44-63 | A call removes one matching route, finds none, or fails; without an interface any route to the prefix matches |
| Reconcilers.PassProgress | noeio/src/daemon/reconciler.rs:135-179 | Each removal of an unwanted and each addition of a wanted route shrinks the symmetric difference by one, within intersection and union |
| KernelMirror.RemovalKeepsMirrorIff | noeio/src/daemon/reconciler.rs:260-268 | Removing a recorded route keeps record and kernel in step, whichever route the kernel picks, iff its nic is registered or no recorded route of a registered nic has its prefix |
| KernelMirror.InstallKeepsMirrorIff | noeio/src/daemon/reconciler.rs:243-258 | Adding one keeps them in step, whatever the kernel answers, iff the kernel has no route to the prefix |
| KernelMirror.PassKeepsMirrorIff | noeio/src/daemon/reconciler.rs:135-179 | Over every order and every failure of its calls a pass keeps them in step, iff it starts without stale twins, doubly wanted prefixes and occupied prefixes |
| CleanPasses.CleanPassKeepsMirrorIff | noeio/src/daemon/reconciler.rs:135-179 | Over every order, every route the kernel may pick and every failed addition, a pass whose removals succeed keeps them in step, iff it leaves no twin, adds no prefix twice and clears each prefix it adds |
| CleanPasses.LeftoversClear | noeio/src/daemon/reconciler.rs:260-268 | Removals without an interface clear a prefix that has no more routes than leftovers, whichever routes they take |
| MirrorHistory.LifeStaysInStep | noeio/src/daemon/reconciler.rs:184-213 | Over every life of passes whose removals succeed, nics that come under new ids or go, and restarts with the record kept, record and kernel are in step at every moment |
| KernelMirror.LeftoverTakesTheLiveRoute | noeio/src/daemon/reconciler.rs:144-155 | After a restart and one failed removal the next pass removes the live route, and no later pass adds it |
| KernelMirror.FailedRemovalHidesTheNewRoute | noeio/src/daemon/reconciler.rs:251-256 | A prefix that changes nics while its removal fails ends without any route, for good |
| Reconcilers.Reconciler.Uninstall | noeio/src/daemon/reconciler.rs:260-268 | "Already gone" is success; with a known nic exactly that route goes, otherwise one to the prefix that the kernel picks |
| Reconcilers.Reconciler.Install | noeio/src/daemon/reconciler.rs:243-258 | "Already exists" is success, though the route that exists may be another |
| Reconcilers.Reconciler.RemoveExtra | noeio/src/daemon/reconciler.rs:144-155 | Every removal is tried once and may fail; the count is the shrinkage of the record, and without a failure nothing of the list stays |
| Reconcilers.Reconciler.AddMissing | noeio/src/daemon/reconciler.rs:157-174 | Every addition is tried once and may fail, unknown nics are skipped; the count is the growth of the record, and without a failure all known ones are in it |
| Reconcilers.Reconciler.Reconcile | noeio/src/daemon/reconciler.rs:135-179 | The count is the shrinkage of the symmetric difference; full success reaches the goal; at the goal a pass does nothing; record and kernel stay in step from a safe start, and if nothing fails from a clean one, which are the exact conditions |
| Reconcilers.Reconciler.Persist | noeio/src/daemon/reconciler.rs:215-233 | The file holds the record's lines; if the write fails, which is counted, a part of them or what it held before; without persistence nothing happens |
| StateFile.TornState | noeio/src/daemon/reconciler.rs:198-207 | A file that broke off gives back the routes of its whole lines and of the cut line nothing, the route itself or a wider one; all of it was persisted iff that wider one was |
| StateFile.CutLineSays | noeio/src/daemon/reconciler.rs:235-241 | A line cut short is read as a route iff it lost one digit of a two-digit prefix length, and then as the wider one |
| Reconcilers.Reconciler.Restore | noeio/src/daemon/reconciler.rs:184-213 | Restoring a persisted set adds exactly that set; bad lines add nothing |
| RouteAgreement.RefreshIgnoresOrder | noeio/src/daemon.rs:170-213 | The listing order of the peers does not show in the table |
| RouteAgreement.EntryHasExit | noeio/src/daemon.rs:170-235 | Every table entry was advertised by its exit, which resolves |
| RouteAgreement.TableMeaning | noeio/src/daemon.rs:170-214 | With routes on, the table holds exactly the prefixes of length 8 or more without a protected address, each with its lowest stored advertiser; with routes off, nothing |
| RouteAgreement.LookupMeaning | noeio/src/daemon/router.rs:91-106 | The lookup answers the owner of a stored address, otherwise the one peer that is the exit of the longest accepted prefix containing it, or none if there is no such prefix |
| RouteAgreement.RepliesAreAllowed | noeio/src/daemon/router.rs:91-141 | If the lookup names a peer for an address, that peer may source packets from it |
| RouteAgreement.DesiredMeaning | noeio/src/daemon.rs:220-252 | The desired set is one host route per peer and one route per accepted entry |
| RouteAgreement.CoverageAgrees | noeio/src/daemon.rs:246-252 | An address is covered by an installed route iff the lookup finds a peer |
| RouteAgreement.EgressAgreesIff | noeio/src/daemon.rs:246-252 | The longest covering route is one the looked-up peer contributes, through its nic, for all addresses iff no accepted /32 clashes |
| RouteAgreement.HostClashHappens | noeio/src/daemon/router.rs:91-106 | Two SyncRoutes and a refresh, under a policy that protects this node's own addresses, make the desired routes disagree with the lookup |
| RouteAgreement.MirroredKernelAgrees | noeio/src/daemon.rs:246-252 | With record and kernel in step, the kernel's own routes through our interfaces cover exactly what the lookup resolves and lead to its interface iff no accepted /32 clashes |
| Daemon.NoeioDaemon.ApplySyncRoute | noeio/src/daemon.rs:257-307 | The router becomes what folding the message gives, and the answer says whether it changed |
| Daemon.NoeioDaemon.CollectAdverts | noeio/src/daemon.rs:171-178 | Every advertisement of every peer, in some listing order |
| Daemon.NoeioDaemon.RefreshSubnets | noeio/src/daemon.rs:150-214 | The table holds exactly the prefixes this node's own switch, LANs, advertisements, addresses and servers permit, each with its lowest stored advertiser, and nothing with routes off; the peers are untouched |
| Daemon.NoeioDaemon.RouteSnapshot | noeio/src/daemon.rs:220-239 | One entry per peer with the accepted subnets it is the exit for |
| Daemon.NoeioDaemon.ReconcileRoutes | noeio/src/daemon.rs:246-252 | If no kernel call failed, ids are unique and nics registered, the record and the lookup agree; and so do the kernel's routes if the pass started in step and from a clean start, leftovers' routes still present included |
| Daemon.NoeioDaemon.SetAdvertised | noeio/src/daemon.rs:132-148 | A changed set reaches every local PeerInfo and strictly raises the host version |
| PeerCache.PeerManager.RunHeartbeat | noeio-derp/src/connection/peer.rs:83-113 | Both caches, the tombstones and the trigger change as the value-level heartbeat says |
| PeerCache.PeerManager.RunRemove | noeio-derp/src/connection/peer.rs:125-130 | An explicit removal clears the index and tombstones the peer |
| PeerCache.PeerManager.Sweep | noeio-derp/src/connection/peer.rs:78-81 | Exactly the live peers remain, and each evicted one has one tombstone |
| PeerCache.PeerManager.Resolve | noeio-derp/src/connection/peer.rs:146-150 | The index answer, confirmed against the peers |
| PeerCache.LiveVersionsRise | noeio-derp/src/connection/peer.rs:83-113 | While a peer is live its version does not fall and an equal version is the same report |
| PeerCache.HeartbeatMeaning | noeio-derp/src/connection/peer.rs:83-113 | A heartbeat is stored with its address and network unless a live entry is as new, which is renewed; the index follows, and a broadcast is asked for iff it was stored |
| PeerCache.RemovalMeaning | noeio-derp/src/connection/peer.rs:44-81 | Removal and eviction bury exactly the entry they take, and eviction takes only expired ones |
| PeerCache.VersionNeverFalls | noeio-derp/src/connection/peer.rs:83-113 | The same over any run in which the peer stays live |
| PeerCache.BeatingPeersAreNotTombstoned | noeio-derp/src/connection/peer.rs:44-95 | Heartbeats closer than the TTL, stale ones included, never lead to a tombstone |
| PeerCache.RunKeepsLog | noeio-derp/src/connection/peer.rs:44-76 | Over every run the broadcaster gets exactly the tombstones, each for an id then present |
| PeerCache.TombstonesNeedAnInsert | noeio-derp/src/connection/peer.rs:44-76 | Between two tombstones for one id it was inserted again |
| PeerCache.IndexIsScan | noeio-derp/src/connection/peer.rs:83-150 | In any run without two live ids at one address and network, the index equals the linear scan |
| Relay.HandleSync | noeio-derp/src/connection.rs:339-400 | The nested loops send each live peer every other live peer's entries of its network, and nothing else |
| Relay.HandleGone | noeio-derp/src/connection.rs:93-124 | A tombstone for each of the dead peer's entries goes to every other live member of its network |
| Relay.BroadcastTells | noeio-derp/src/connection.rs:343-397 | A broadcast is exactly one packet for each live target and each entry of another live peer of its network, with the entry's identity and routes untouched and the host's version and paths |
| Relay.BurialsTell | noeio-derp/src/connection.rs:93-124 | The tombstones are exactly one for each other live member of the network and each of the dead peer's entries there |
| Relay.RelaysExactlyMembers | noeio-derp/src/connection.rs:186-229 | In every run without shared addresses a Forward is relayed iff its target is live and a live member of its network is registered at the source, and then to it, stamped with that one member |
| SyncProtocol.ReportEffect | noeio-derp/src/connection/peer.rs:83-113 | A report either changes nothing or is stored and triggers |
| SyncProtocol.BroadcastMeaning | noeio-derp/src/connection.rs:343-397 | A broadcast is the current entry of each live host to each other live host of its network |
| SyncProtocol.RunKeeps | noeio-derp/src/connection.rs:343-397 | Over every run, whatever a node does not know is pending or about to be sent |
| SyncProtocol.QuiescentlyConsistent | noeio/src/daemon.rs:276-306 | With no trigger and no packet pending every live node's router holds of each other live peer of its network exactly the entry the relay holds, routes included, with the host's version and paths, and nothing else |
| SyncProtocol.NeverNewer | noeio/src/daemon.rs:276-306 | At no time does a router hold a newer version than the relay, or other content for the same one |
| SyncProtocol.DeliveringEverythingConverges | noeio-derp/src/connection.rs:343-397 | Delivering what is pending, in any order and with duplicates, ends consistent |
| SyncProtocol.EveryWorldSettles | noeio-derp/src/connection.rs:343-397 | From every reachable world one broadcast, if due, and the delivery of what is pending end quiescent and consistent |
| SyncProtocol.ReceiversPunchTheReportedPaths | noeio-derp/src/connection.rs:378-390 | The receiver's candidates are the reported LAN addresses and the public one unless the NAT is symmetric |
| SyncExpiry.FoldIsHeard | noeio/src/daemon.rs:257-307 | A router holds of every peer the newest report since the last tombstone, among the packets in the order they came |
| SyncExpiry.HistoryKeeps | noeio-derp/src/connection.rs:343-397 | Over every run with expiry, eviction and tombstones, what a live node is to hear is about to be sent, on its way or received |
| SyncExpiry.RoutersHoldWhatTheyHeard | noeio/src/daemon.rs:257-307 | At every moment of every such run each router holds what its packets say |
| SyncExpiry.InLineIffInOrder | noeio-derp/src/connection.rs:93-124 | Settled, a live node's router holds of a peer exactly what the relay would tell it iff no tombstone came after the live peer's news and no report of another came after its last tombstone |
| SyncExpiry.LateTombstoneUndoes | noeio/src/daemon.rs:258-275 | In any settled state one more copy of a tombstone removes a live peer and leaves everything settled |
| SyncExpiry.LateReportRevives | noeio/src/daemon.rs:276-306 | One more copy of a report brings back a peer that is gone |
| SyncExpiry.EveryMemberIsTold | noeio-derp/src/connection.rs:93-124 | Burying a peer sends its tombstone to every other live member of its network |
| SyncExpiry.CanSettle | noeio-derp/src/connection.rs:343-397 | Every history with expiry can be continued until everything is sent and delivered |
| UdpSession.UdpTunnelSession.RunHandshake | noeio/src/tunnel/session/udp.rs:291-359 | One step of the handshake and ping loop |
| UdpSession.UdpTunnelSession.RunDispatch | noeio/src/tunnel/session/udp.rs:203-267 | One datagram: the liveness stamp, the echo, the Ack signal or the pong match |
| UdpSession.UdpTunnelSession.RunStoreSample | noeio/src/tunnel/session/udp.rs:260-268 | The matched pong becomes the published RTT |
| UdpSession.UdpTunnelSession.RunMonitor | noeio/src/tunnel/session/udp.rs:370-390 | A connected, silent session is noticed, then demoted |
| HolePunch.RunKeeps | noeio/src/tunnel/session/udp.rs:203-389 | Over every interleaving every reply has its cause and every phase its state and number of Seqs |
| HolePunch.RunMovesForward | noeio/src/tunnel/session/udp.rs:291-389 | Each step moves the state forward: Connected only with an Ack, Timeout only after five Seqs or 45 s of silence |
| HolePunch.StateNeverReturns | noeio/src/tunnel/session/udp.rs:291-389 | No state is revisited once left |
| HolePunch.ConnectedMeansHeard | noeio/src/tunnel/session/udp.rs:227-250 | Connected on one side means the other received a Seq with this side's nonce |
| HolePunch.SamplesAreGenuine | noeio/src/tunnel/session/udp.rs:251-268 | Every sample is the time since the ping that was latest when its pong matched, and the other side received and answered that ping |
| PunchProgress.RequestsAreAnswered | noeio/src/tunnel/session/udp.rs:234-259 | Every Seq is answered with an Ack and every Ping with a Pong that echo its value |
| PunchProgress.EverythingIsHeard | noeio/src/tunnel/session/udp.rs:216-266 | Every datagram stamps the liveness clock, and a malformed or unrelated one does nothing else |
| PunchProgress.AckConnects | noeio/src/tunnel/session/udp.rs:291-359 | An Ack with the own nonce connects a waiting session, whatever the timer does |
| PunchProgress.StrangeAckIsIgnored | noeio/src/tunnel/session/udp.rs:227-233 | An Ack with another nonce does nothing but stamp the clock |
| PunchProgress.UnansweredTimesOut | noeio/src/tunnel/session/udp.rs:291-331 | Without an Ack a session sends its Seq once for each of the five attempts left and then times out |
| PunchProgress.FiveAttempts | noeio/src/tunnel/session/udp.rs:291-331 | A new session that is never answered sends five Seqs and times out |
| PunchProgress.PingIsStampedThenSent | noeio/src/tunnel/session/udp.rs:339-359 | A ping carries the clock and is published before it is sent |
| PunchProgress.PongIsPublishedIff | noeio/src/tunnel/session/udp.rs:260-268 | A pong becomes the RTT, the time since its ping, iff it answers the latest ping |
| PunchProgress.SilenceTimesOutIff | noeio/src/tunnel/session/udp.rs:370-390 | The monitor times a connected session out iff nothing was heard for 45 seconds |
| PunchProgress.MonitorSparesOthers | noeio/src/tunnel/session/udp.rs:374-377 | The monitor leaves a session that is not connected alone |
| PunchProgress.WaitingCanConnect | noeio/src/tunnel/session/udp.rs:203-389 | From every reachable world a waiting session can be connected in six further steps |
| PathSelection.SelectMeaning | noeio/src/daemon/peer.rs:259-311 | An incumbent is displaced iff it is unmeasured and another path is not, or another is more than 20% faster; then, and without an incumbent, the first fastest path is taken |
| PathSelection.SelectIsIdempotent | noeio/src/daemon/peer.rs:259-311 | With unchanged RTTs a second evaluation changes nothing |
| PathSelection.MovesIff | noeio/src/daemon/peer.rs:259-311 | In a run of measured paths the selection moves iff some path shows less than 80% of the selected one's RTT, and then to a fastest |
| PathSelection.SwitchLowersMin | noeio/src/daemon/peer.rs:17 | In a steady run a switch strictly lowers the least RTT of the selected path |
| PathSelection.NeverReturns | noeio/src/daemon/peer.rs:259-311 | In a steady run an address once left is never selected again |
| PathSelection.SwitchesAreBounded | noeio/src/daemon/peer.rs:259-311 | After the first pick there are fewer switches than sessions |
| Peers.CandidateAddrs | noeio/src/daemon/peer.rs:165-180 | The candidates are the first occurrences of the reported addresses, in order |
| Peers.Peer.TryCreateTunnel | noeio/src/daemon/peer.rs:191-206 | Exactly one session per candidate, none timed out, live ones kept as the same object unless forced, the others fresh |
| Peers.Peer.OpenSession | noeio/src/daemon/peer.rs:215-232 | A fresh connecting session takes the place of any for that address, the others stay |
| Peers.Peer.SelectSession | noeio/src/daemon/peer.rs:259-311 | Nothing is selected iff no session is connected; a connected incumbent stays iff no connected session is measured where it is not or more than 20% faster; otherwise the first fastest is taken |
| Peers.Peer.Address | noeio/src/daemon/peer.rs:242-247 | The cached pick, iff its session is still connected |
| Peers.Peer.UpdateInfo | noeio/src/daemon/peer.rs:348-373 | The codec is rebuilt iff its keys changed, and all sessions are replaced iff network or NAT type changed |
| Nftables.NewRuleset | noeio-net-route/src/nftables.rs:122-142 | Accepts exactly valid names and prefix lengths up to 32, and keeps them |
| Nftables.CheckedNames | noeio-net-route/src/nftables.rs:145-158 | The names that pass are one to fifteen letters, digits, dashes, underscores and dots |
| Nftables.PaddingIsInjective | noeio-net-route/src/nftables.rs:329-333 | Padded names are equal iff the names are |
| Nftables.LongNamesCollide | noeio-net-route/src/nftables.rs:145-158 | Without the length check two names compile to one comparison |
| Nftables.MaskedCompare | noeio-net-route/src/nftables.rs:350-377 | Masking and comparing bytes is the prefix test on the address they spell |
| Nftables.MasqRuleMeaning | noeio-net-route/src/nftables.rs:507-510 | Masquerade iff the source is in the overlay prefix and the output interface is the LAN name |
| Nftables.OutRuleMeaning | noeio-net-route/src/nftables.rs:512-515 | Accept iff the packet goes from tunnel to LAN |
| Nftables.BackRuleMeaning | noeio-net-route/src/nftables.rs:517-521 | Accept iff it goes from LAN to tunnel and is established or related |
| Nftables.ClampRuleMeaning | noeio-net-route/src/nftables.rs:427-484 | Write the route's MSS in network order iff the packet is a TCP SYN on the tunnel in that direction |
| Nftables.TableMeaning | noeio-net-route/src/nftables.rs:489-538 | What the three chains together do to a packet: the verdict of the two forward rules in order, the masquerade, and the MSS written once for each interface that is the tunnel |
| Nftables.TableTakesEffect | noeio-net-route/src/nftables.rs:489-538 | Each chain has the type, hook and priority at which its rules take effect, so a forwarded packet is filtered, masqueraded and clamped as the ruleset says |
| Nftables.BuildBatch | noeio-net-route/src/nftables.rs:489-538 | Committed over any existing table the batch leaves exactly the ruleset's table |
| Nftables.ApplyRuleset | noeio-net-route/src/nftables.rs:637-648 | Whether or not a table was there, the ruleset's table is there afterwards |
| Cover.CoveringPrefixIsLeast | noeio/src/daemon/nat.rs:180-190 | In network form, contains every address, and lies in every prefix that contains both ends |
| Cover.OverlayRange | noeio/src/daemon/nat.rs:152-164 | The range over all nic and peer addresses contains each and no longer prefix does |
| Cover.OverlayTrafficIsMasqueraded | noeio/src/daemon/nat.rs:148-152 | The rule built from the cover matches every known overlay address |
| Forwarding.Host.RunEnable | noeio-net-route/src/forwarding.rs:38-50 | Stopped after any number of calls, or in the middle of the save, the disk is as the call sequence says |
| Forwarding.Host.RunRestore | noeio-net-route/src/forwarding.rs:54-67 | The same for restore |
| Forwarding.AttemptsFollowTheirCalls | noeio-net-route/src/forwarding.rs:38-67 | Stopped after any number of calls, the disk is what the list of calls, written out one by one, has reached |
| Forwarding.HistoryKeepsSafe | noeio-net-route/src/forwarding.rs:38-67 | Across any crashes, torn saves included if the original was off, no saved file means the original value and a saved file reads as it |
| Forwarding.FinishedAttemptsReachTheirGoal | noeio-net-route/src/forwarding.rs:38-67 | After any such history a finished enable has forwarding on with the original saved, a finished restore has the original back |
| Forwarding.RestoresOriginalIff | noeio-net-route/src/forwarding.rs:38-67 | After any history, torn saves included, a finished restore gives back the original iff it was off or no torn save had found the file missing |
| Forwarding.TearingIsHarmlessIff | noeio-net-route/src/forwarding.rs:54-67 | Torn saves are harmless in every history iff the original was off |
| Forwarding.TornSaveLosesOn | noeio-net-route/src/forwarding.rs:41-44 | With the original on, after any history without a saved file, a torn save and a finished restore lose it for every later history |
| PeerText.ParseJoinAddrs | noeio-common/src/host_info.rs:145-164 | Parsing a joined address list gives it back, the empty list included |
| PeerText.PeerRoundTripIff | noeio-common/src/host_info.rs:166-238 | The text gives back all but routes and tombstone flag, hence the same value iff those are unset |
| PeerText.LegacyEntryParses | noeio-common/src/host_info.rs:203-210 | An entry of six fields parses with version 0, one of five without LAN addresses besides, and one of fewer not at all |

## Left out

- Sockets, TUN devices, task scheduling, gRPC, CLI, configuration loading and logging: plumbing around the modelled steps.
- WireGuard, key derivation, tokens, protobuf, STUN and netlink byte encodings: other libraries' work; a codec is the triple its keys derive from, and nf_tables expressions are modelled before their netlink encoding.
- `parse_cidr` errors, the platform gate of `validate_advertisement` and resolving control-plane hosts: easy, or input to the modelled policy.
- `converge` and `sweep_leftovers` of the NAT layer: after a partial failure its record may lag the kernel; their parts are modelled one by one.
- `inbound` demultiplexing to sessions, packet headers and relay probing: easy or outside the routing core.
- Daemon.NoeioDaemon.ReconcileRoutes: interfaces, nics and the peer list do not change during a pass; each method is one atomic step.
- Peers.Peer.TryCreateTunnel: a session's state is read as it is when the call starts, because tasks of the sessions do not run inside the step.
- MirrorHistory.LifeStaysInStep: removals that fail are in `KernelMirror.PassKeepsMirrorIff`, and files that broke off in `StateFile.TornState`; routes the kernel makes for an interface's own address are not part of its table here.
- SyncProtocol.QuiescentlyConsistent: one PeerInfo per host, fixed address and network, no expiry and no loss, because the broadcast does not filter a host's entries by network and a lost packet is not sent again until the next trigger; expiry is in `SyncExpiry`.
- SyncExpiry.InLineIffInOrder: the same, with expiry, and each host's reports reach the relay in order; an expired peer counts as gone even before its eviction.
- HolePunch.SamplesAreGenuine: one session per side; datagrams fanned out to a peer's other sessions are not modelled.
- Nftables.ClampRuleMeaning: what the kernel does with the MSS it is given (it never raises one) is the kernel's part.
- Forwarding.HistoryKeepsSafe: nothing else writes the sysctl or the file, and a write of the sysctl itself does not tear.
