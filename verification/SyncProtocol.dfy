/**
 Route synchronisation end to end: hosts report to the relay, the relay
 broadcasts over a network that reorders and duplicates but does not lose, and
 every node folds what arrives into its router. Each host has one PeerInfo, a
 fixed address and network, and overlay addresses differ within a network;
 nothing expires.
 */
module SyncProtocol {
  import opened Wrappers
  import opened Cidrs
  import opened HostInfos
  import opened PeerCache
  import opened Relay
  import opened Peers
  import R = RouterState

  datatype Host = Host(ip: IpAddr, network: NetworkId, addr: SocketAddr)

  datatype World = World(
    hosts: map<PeerId, Host>,
    cache: Cache,
    sent: set<Packet>,
    pending: set<Packet>,
    routers: map<PeerId, R.State>)

  datatype Event = Report(id: PeerId, info: HostInfo) | Sync | Deliver(packet: Packet)

  ghost predicate WellFormed(hosts: map<PeerId, Host>) {
    forall a, b | a in hosts && b in hosts && a != b && hosts[a].network == hosts[b].network :: hosts[a].ip != hosts[b].ip
  }

  /** The one entry host `id` reports about itself. */
  predicate IsOwnEntry(hosts: map<PeerId, Host>, id: PeerId, p: PeerInfo) {
    id in hosts && p.peerId == id && p.noeioIp == hosts[id].ip && p.network == hosts[id].network && !p.withdrawn
  }

  predicate Enabled(w: World, e: Event) {
    match e
    case Report(id, info) => |info.peers| == 1 && IsOwnEntry(w.hosts, id, info.peers[0])
    case Sync => w.cache.triggered
    case Deliver(packet) => packet in w.sent && packet.target in w.routers
  }

  function Next(w: World, e: Event): World
    requires Enabled(w, e)
  {
    match e
    case Report(id, info) =>
      w.(cache := Heartbeat(w.cache, id, info, w.hosts[id].addr, w.hosts[id].network))
    case Sync =>
      var packets := Broadcast(w.cache);
      w.(cache := w.cache.(triggered := false), sent := w.sent + packets, pending := w.pending + packets)
    case Deliver(packet) =>
      var router := R.ApplySyncRoute(w.routers[packet.target], packet.info, packet.target);
      w.(routers := w.routers[packet.target := router], pending := w.pending - {packet})
  }

  ghost predicate Initial(w: World) {
    && WellFormed(w.hosts)
    && w.cache.ttl > 0 && w.cache.peers == map[] && !w.cache.triggered
    && w.sent == {} && w.pending == {}
    && w.routers.Keys == w.hosts.Keys
    && forall id | id in w.routers :: w.routers[id] == R.EMPTY
  }

  ghost predicate IsRun(run: seq<World>) {
    && run != [] && Initial(run[0])
    && forall i: nat | 0 < i < |run| :: Steps(run[i - 1], run[i])
  }

  ghost predicate Steps(w: World, w': World) {
    exists e :: Enabled(w, e) && w' == Next(w, e)
  }

  // ---- the invariant --------------------------------------------------------------------------------

  /** What the relay currently says about `id`. */
  function Current(c: Cache, id: PeerId): PeerInfo
    requires id in c.peers && |c.peers[id].info.peers| == 1
  {
    Stamp(c.peers[id].info, c.peers[id].info.peers[0])
  }

  ghost predicate CacheInv(hosts: map<PeerId, Host>, c: Cache) {
    && c.ttl > 0
    && forall id | id in c.peers ::
         && c.peers[id].at == c.now
         && |c.peers[id].info.peers| == 1
         && IsOwnEntry(hosts, id, c.peers[id].info.peers[0])
         && c.peers[id].addr == hosts[id].addr
         && c.peers[id].network == hosts[id].network
  }

  /** `info` is about a host the relay knows, and is not newer than, nor differs from, what the relay holds. */
  ghost predicate NotNewer(hosts: map<PeerId, Host>, c: Cache, info: PeerInfo)
    requires CacheInv(hosts, c)
  {
    && info.peerId in c.peers
    && IsOwnEntry(hosts, info.peerId, info)
    && info.version <= c.peers[info.peerId].info.version
    && (info.version == c.peers[info.peerId].info.version ==> info == Current(c, info.peerId))
  }

  /** `info` is something `target` may be told: about another host of its network. */
  ghost predicate ForTarget(hosts: map<PeerId, Host>, target: PeerId, info: PeerInfo) {
    && target in hosts && info.peerId in hosts
    && info.peerId != target && hosts[info.peerId].network == hosts[target].network
  }

  ghost predicate SentInv(w: World)
    requires CacheInv(w.hosts, w.cache)
  {
    && w.pending <= w.sent
    && forall packet | packet in w.sent ::
         NotNewer(w.hosts, w.cache, packet.info) && ForTarget(w.hosts, packet.target, packet.info)
  }

  ghost predicate EntryInv(hosts: map<PeerId, Host>, c: Cache, target: PeerId, ip: IpAddr, entry: R.PeerEntry)
    requires CacheInv(hosts, c)
  {
    && NotNewer(hosts, c, entry.info)
    && ForTarget(hosts, target, entry.info)
    && entry.info.noeioIp == ip
    && entry.nic == target
  }

  ghost predicate RouterInv(w: World)
    requires CacheInv(w.hosts, w.cache)
  {
    && w.routers.Keys == w.hosts.Keys
    && forall t, ip | t in w.routers && ip in w.routers[t].peers ::
         EntryInv(w.hosts, w.cache, t, ip, w.routers[t].peers[ip])
  }

  predicate MustKnow(w: World, t: PeerId, s: PeerId) {
    t in w.cache.peers && s in w.cache.peers && t != s && t in w.hosts && s in w.hosts
    && w.hosts[t].network == w.hosts[s].network
  }

  /** The router of `t` holds exactly what the relay holds about `s`. */
  predicate Knows(w: World, t: PeerId, s: PeerId)
    requires s in w.cache.peers && |w.cache.peers[s].info.peers| == 1
  {
    && t in w.routers && s in w.hosts
    && w.hosts[s].ip in w.routers[t].peers
    && w.routers[t].peers[w.hosts[s].ip].info == Current(w.cache, s)
  }

  /** Whatever a node does not know is on its way, or about to be sent. */
  ghost predicate ProgressInv(w: World)
    requires CacheInv(w.hosts, w.cache)
  {
    forall t, s | MustKnow(w, t, s) ::
      || w.cache.triggered
      || Knows(w, t, s)
      || SyncRoute(t, w.hosts[t].addr, Current(w.cache, s)) in w.pending
  }

  ghost predicate Inv(w: World) {
    && WellFormed(w.hosts) && CacheInv(w.hosts, w.cache) && SentInv(w) && RouterInv(w) && ProgressInv(w)
  }

  // ---- every step keeps it ------------------------------------------------------------------------------

  /** A report the relay already has changes nothing; any other raises the version and the trigger. */
  lemma ReportEffect(w: World, id: PeerId, info: HostInfo)
    requires CacheInv(w.hosts, w.cache) && Enabled(w, Report(id, info))
    ensures var c, c' := w.cache, Next(w, Report(id, info)).cache;
            && CacheInv(w.hosts, c')
            && (if id in c.peers && info.version <= c.peers[id].info.version
                then c'.peers == c.peers && c'.triggered == c.triggered
                else c'.triggered && c'.peers == c.peers[id := Stored(w.hosts[id].addr, info, w.hosts[id].network, c.now)])
  {
  }

  lemma NotNewerSurvives(w: World, id: PeerId, info: HostInfo, p: PeerInfo)
    requires CacheInv(w.hosts, w.cache) && Enabled(w, Report(id, info))
    requires NotNewer(w.hosts, w.cache, p)
    ensures CacheInv(w.hosts, Next(w, Report(id, info)).cache)
    ensures NotNewer(w.hosts, Next(w, Report(id, info)).cache, p)
  {
    ReportEffect(w, id, info);
  }

  lemma ReportKeeps(w: World, id: PeerId, info: HostInfo)
    requires Inv(w) && Enabled(w, Report(id, info))
    ensures Inv(Next(w, Report(id, info)))
  {
    var w' := Next(w, Report(id, info));
    ReportEffect(w, id, info);
    forall packet | packet in w'.sent
      ensures NotNewer(w'.hosts, w'.cache, packet.info)
    {
      NotNewerSurvives(w, id, info, packet.info);
    }
    forall t, ip | t in w'.routers && ip in w'.routers[t].peers
      ensures EntryInv(w'.hosts, w'.cache, t, ip, w'.routers[t].peers[ip])
    {
      assert EntryInv(w.hosts, w.cache, t, ip, w.routers[t].peers[ip]);
      NotNewerSurvives(w, id, info, w.routers[t].peers[ip].info);
    }
    if !w'.cache.triggered {
      forall t, s | MustKnow(w', t, s)
        ensures Knows(w', t, s) || SyncRoute(t, w'.hosts[t].addr, Current(w'.cache, s)) in w'.pending
      {
        assert MustKnow(w, t, s);
      }
    }
  }

  lemma BroadcastMeaning(hosts: map<PeerId, Host>, c: Cache, packet: Packet)
    requires CacheInv(hosts, c)
    ensures packet in Broadcast(c) <==>
            exists s | s in c.peers ::
              && packet.target in c.peers && packet.target != s && hosts[packet.target].network == hosts[s].network
              && packet == SyncRoute(packet.target, hosts[packet.target].addr, Current(c, s))
  {
  }

  lemma SyncKeeps(w: World)
    requires Inv(w) && Enabled(w, Sync)
    ensures Inv(Next(w, Sync))
  {
    var w' := Next(w, Sync);
    forall packet | packet in Broadcast(w.cache)
      ensures NotNewer(w'.hosts, w'.cache, packet.info) && ForTarget(w'.hosts, packet.target, packet.info)
    {
      BroadcastMeaning(w.hosts, w.cache, packet);
    }
    forall packet | packet in w.sent
      ensures NotNewer(w'.hosts, w'.cache, packet.info)
    {
      assert NotNewer(w.hosts, w.cache, packet.info);
    }
    forall t, ip | t in w'.routers && ip in w'.routers[t].peers
      ensures EntryInv(w'.hosts, w'.cache, t, ip, w'.routers[t].peers[ip])
    {
      assert EntryInv(w.hosts, w.cache, t, ip, w.routers[t].peers[ip]);
    }
    forall t, s | MustKnow(w', t, s)
      ensures SyncRoute(t, w'.hosts[t].addr, Current(w'.cache, s)) in w'.pending
    {
      BroadcastMeaning(w.hosts, w.cache, SyncRoute(t, w'.hosts[t].addr, Current(w'.cache, s)));
    }
  }

  /** After a delivery the target holds, at the named IP, the better of what it had and what came. */
  lemma DeliverEffect(w: World, packet: Packet)
    requires Inv(w) && Enabled(w, Deliver(packet))
    ensures var before, after := w.routers[packet.target].peers, Next(w, Deliver(packet)).routers[packet.target].peers;
            && packet.info.noeioIp in after
            && after == before[packet.info.noeioIp := after[packet.info.noeioIp]]
            && after[packet.info.noeioIp].info.version >= packet.info.version
            && EntryInv(w.hosts, w.cache, packet.target, packet.info.noeioIp, after[packet.info.noeioIp])
            && after[packet.info.noeioIp].info.peerId == packet.info.peerId
            && (packet.info.noeioIp in before ==>
                  after[packet.info.noeioIp].info.version >= before[packet.info.noeioIp].info.version
                  && before[packet.info.noeioIp].info.peerId == packet.info.peerId)
  {
  }

  lemma DeliverKeepsRouters(w: World, packet: Packet)
    requires Inv(w) && Enabled(w, Deliver(packet))
    ensures RouterInv(Next(w, Deliver(packet)))
  {
  }

  lemma DeliverKeepsProgress(w: World, packet: Packet, t: PeerId, s: PeerId)
    requires Inv(w) && Enabled(w, Deliver(packet)) && MustKnow(w, t, s)
    ensures var w' := Next(w, Deliver(packet));
            w'.cache.triggered || Knows(w', t, s) || SyncRoute(t, w'.hosts[t].addr, Current(w'.cache, s)) in w'.pending
  {
    var news := SyncRoute(t, w.hosts[t].addr, Current(w.cache, s));
    if Knows(w, t, s) || packet == news {
      DeliverKeepsKnowledge(w, packet, t, s);
    } else {
      assert w.cache.triggered || news in w.pending;
    }
  }

  lemma DeliverKeeps(w: World, packet: Packet)
    requires Inv(w) && Enabled(w, Deliver(packet))
    ensures Inv(Next(w, Deliver(packet)))
  {
    var w' := Next(w, Deliver(packet));
    DeliverKeepsRouters(w, packet);
    forall t, s | MustKnow(w', t, s)
      ensures w'.cache.triggered || Knows(w', t, s) || SyncRoute(t, w'.hosts[t].addr, Current(w'.cache, s)) in w'.pending
    {
      assert MustKnow(w, t, s);
      DeliverKeepsProgress(w, packet, t, s);
    }
    assert SentInv(w');
  }

  lemma DeliverKeepsKnowledge(w: World, packet: Packet, t: PeerId, s: PeerId)
    requires Inv(w) && Enabled(w, Deliver(packet)) && MustKnow(w, t, s)
    requires Knows(w, t, s) || packet == SyncRoute(t, w.hosts[t].addr, Current(w.cache, s))
    ensures Knows(Next(w, Deliver(packet)), t, s)
  {
    DeliverEffect(w, packet);
    if t == packet.target && packet.info.noeioIp == w.hosts[s].ip {
      assert NotNewer(w.hosts, w.cache, packet.info) && ForTarget(w.hosts, packet.target, packet.info);
      assert packet.info.peerId == s;
    }
  }

  lemma {:induction false} RunKeeps(run: seq<World>, i: nat)
    requires IsRun(run) && i < |run|
    ensures Inv(run[i])
    decreases i
  {
    if i != 0 {
      RunKeeps(run, i - 1);
      var w := run[i - 1];
      assert Steps(w, run[i]);
      var e :| Enabled(w, e) && run[i] == Next(w, e);
      match e {
        case Report(id, info) => ReportKeeps(w, id, info);
        case Sync => SyncKeeps(w);
        case Deliver(packet) => DeliverKeeps(w, packet);
      }
    }
  }

  // ---- the results -----------------------------------------------------------------------------------------

  ghost predicate Quiescent(w: World) {
    !w.cache.triggered && w.pending == {}
  }

  /**
   Whenever no trigger and no packet is pending, the router of every live node
   holds, for each other live peer of its network and for nothing else, exactly
   the version and content the relay holds.
   */
  lemma QuiescentlyConsistent(run: seq<World>, i: nat)
    requires IsRun(run) && i < |run| && Quiescent(run[i])
    ensures var w := run[i];
            CacheInv(w.hosts, w.cache)
            && forall t | t in w.cache.peers ::
                 && t in w.routers
                 && (forall s | MustKnow(w, t, s) ::
                       && Knows(w, t, s)
                       && Conveys(w.routers[t].peers[w.hosts[s].ip].info, w.cache.peers[s].info, w.cache.peers[s].info.peers[0]))
                 && (forall ip | ip in w.routers[t].peers ::
                       exists s | MustKnow(w, t, s) :: ip == w.hosts[s].ip)
  {
    RunKeeps(run, i);
    var w := run[i];
    forall t, ip | t in w.cache.peers && t in w.routers && ip in w.routers[t].peers
      ensures exists s | MustKnow(w, t, s) :: ip == w.hosts[s].ip
    {
      assert EntryInv(w.hosts, w.cache, t, ip, w.routers[t].peers[ip]);
      assert MustKnow(w, t, w.routers[t].peers[ip].info.peerId);
    }
  }

  /** At no time does a router hold a newer version than the relay, or another content for the same version. */
  lemma NeverNewer(run: seq<World>, i: nat, t: PeerId, ip: IpAddr)
    requires IsRun(run) && i < |run| && t in run[i].routers && ip in run[i].routers[t].peers
    ensures var w, info := run[i], run[i].routers[t].peers[ip].info;
            && CacheInv(w.hosts, w.cache)
            && info.peerId in w.cache.peers && info.noeioIp == ip
            && info.version <= w.cache.peers[info.peerId].info.version
            && (info.version == w.cache.peers[info.peerId].info.version ==>
                  Conveys(info, w.cache.peers[info.peerId].info, w.cache.peers[info.peerId].info.peers[0]))
  {
    RunKeeps(run, i);
    var w := run[i];
    assert EntryInv(w.hosts, w.cache, t, ip, w.routers[t].peers[ip]);
  }

  function DeliverAll(w: World, packets: seq<Packet>): World
    requires forall p | p in packets :: p in w.sent && p.target in w.routers
    decreases packets
  {
    if packets == [] then w else DeliverAll(Next(w, Deliver(packets[0])), packets[1..])
  }

  /** Once nothing triggers any more, delivering what is pending, in any order and with any duplicates, ends consistent. */
  lemma {:induction false} DeliveringEverythingConverges(w: World, packets: seq<Packet>)
    requires Inv(w) && !w.cache.triggered
    requires forall p | p in w.pending :: p in packets
    requires forall p | p in packets :: p in w.sent && p.target in w.routers
    ensures var w' := DeliverAll(w, packets);
            Inv(w') && Quiescent(w') && w'.cache == w.cache && w'.hosts == w.hosts
            && forall t, s | MustKnow(w', t, s) :: Knows(w', t, s)
    decreases packets
  {
    if packets != [] {
      DeliverKeeps(w, packets[0]);
      DeliveringEverythingConverges(Next(w, Deliver(packets[0])), packets[1..]);
    }
  }

  /** The protocol settles: from every reachable world one broadcast, if one is due, and the delivery of what is pending end consistent. */
  lemma EveryWorldSettles(run: seq<World>, i: nat, packets: seq<Packet>)
    requires IsRun(run) && i < |run|
    requires var w := if run[i].cache.triggered then Next(run[i], Sync) else run[i];
             && (forall p | p in w.pending :: p in packets)
             && forall p | p in packets :: p in w.sent && p.target in w.routers
    ensures var w := DeliverAll(if run[i].cache.triggered then Next(run[i], Sync) else run[i], packets);
            Inv(w) && Quiescent(w) && forall t, s | MustKnow(w, t, s) :: Knows(w, t, s)
  {
    RunKeeps(run, i);
    var w := run[i];
    if w.cache.triggered {
      SyncKeeps(w);
      DeliveringEverythingConverges(Next(w, Sync), packets);
    } else {
      DeliveringEverythingConverges(w, packets);
    }
  }

  /**
   A node that learns of a host opens paths to exactly the addresses the host
   reported: its LAN addresses, and its public one unless its NAT is symmetric.
   */
  lemma ReceiversPunchTheReportedPaths(host: HostInfo, p: PeerInfo, a: SocketAddr)
    ensures a in FirstOccurrences(Reported(Stamp(host, p))) <==>
            || a in (if p.localAddrs == [] then host.localAddrs else p.localAddrs)
            || (host.natType != Symmetric && a == host.natAddr)
  {
  }
}
