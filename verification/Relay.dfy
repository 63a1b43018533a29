/** What the relay sends: route broadcasts, tombstones and relayed datagrams. */
module Relay {
  import opened Wrappers
  import opened Cidrs
  import opened HostInfos
  import opened PeerCache

  /** A SyncRoute addressed to the peer `target` at `to`. */
  datatype Packet = SyncRoute(target: PeerId, to: SocketAddr, info: PeerInfo)

  /** Stamp the host-level version and path candidates into a broadcast entry. */
  function Stamp(host: HostInfo, p: PeerInfo): PeerInfo {
    p.(localAddrs := if p.localAddrs == [] then host.localAddrs else p.localAddrs,
       version := host.version, natType := host.natType, natAddr := Some(host.natAddr))
  }

  /**
   `x` is what a node is to learn from the entry `p` of `host`: the entry's own
   identity and routes, the host's version and paths, and the host's LAN addresses
   only where the entry has none.
   */
  ghost predicate Conveys(x: PeerInfo, host: HostInfo, p: PeerInfo) {
    && x.peerId == p.peerId && x.noeioIp == p.noeioIp && x.network == p.network
    && x.advertisedRoutes == p.advertisedRoutes && x.withdrawn == p.withdrawn
    && x.version == host.version && x.natType == host.natType && x.natAddr == Some(host.natAddr)
    && (p.localAddrs != [] ==> x.localAddrs == p.localAddrs)
    && (p.localAddrs == [] ==> x.localAddrs == host.localAddrs)
  }

  /** Whether the entry `p` reported by `source` goes to `target`. */
  predicate Receives(c: Cache, target: PeerId, source: PeerId, p: PeerInfo) {
    && IsLive(c, target) && IsLive(c, source)
    && target != source
    && c.peers[target].network == c.peers[source].network
    && p in c.peers[source].info.peers
    && p.peerId != target
  }

  /** One broadcast: every live peer hears of every other live peer of its network. */
  function Broadcast(c: Cache): set<Packet> {
    set t, s, p | t in c.peers && s in c.peers && p in c.peers[s].info.peers && Receives(c, t, s, p) ::
      SyncRoute(t, c.peers[t].addr, Stamp(c.peers[s].info, p))
  }

  /** `pkt` tells the live peer `t`, at its address, of the entry `p` of another live peer `s` of its network, one that is not about `t` itself. */
  ghost predicate TellsOf(c: Cache, pkt: Packet, t: PeerId, s: PeerId, p: PeerInfo) {
    && t in c.peers && s in c.peers && p in c.peers[s].info.peers
    && c.now < c.peers[t].at + c.ttl && c.now < c.peers[s].at + c.ttl
    && t != s && c.peers[t].network == c.peers[s].network && p.peerId != t
    && pkt.target == t && pkt.to == c.peers[t].addr && Conveys(pkt.info, c.peers[s].info, p)
  }

  ghost predicate Tells(c: Cache, pkt: Packet) {
    exists t, s, p :: TellsOf(c, pkt, t, s, p)
  }

  lemma ToldIsSent(c: Cache, pkt: Packet, t: PeerId, s: PeerId, p: PeerInfo)
    ensures TellsOf(c, pkt, t, s, p) <==> Receives(c, t, s, p) && pkt == SyncRoute(t, c.peers[t].addr, Stamp(c.peers[s].info, p))
  {
  }

  /** A broadcast is exactly the packets that tell this. */
  lemma BroadcastTells(c: Cache)
    ensures forall pkt :: pkt in Broadcast(c) <==> Tells(c, pkt)
  {
    forall pkt
      ensures pkt in Broadcast(c) <==> Tells(c, pkt)
    {
      if t, s, p :| TellsOf(c, pkt, t, s, p) {
        ToldIsSent(c, pkt, t, s, p);
      }
      if pkt in Broadcast(c) {
        var t, s, p :| t in c.peers && s in c.peers && p in c.peers[s].info.peers && Receives(c, t, s, p)
                       && pkt == SyncRoute(t, c.peers[t].addr, Stamp(c.peers[s].info, p));
        ToldIsSent(c, pkt, t, s, p);
      }
    }
  }

  method HandleSync(manager: PeerManager) returns (sent: set<Packet>)
    requires manager.Valid()
    modifies manager`triggered, manager`value
    ensures manager.Valid() && manager.value == old(manager.value).(triggered := false)
    ensures sent == Broadcast(manager.value) && forall pkt :: pkt in sent <==> Tells(manager.value, pkt)
  {
    manager.triggered := false;
    manager.value := manager.value.(triggered := false);
    sent := {};
    ghost var c := manager.value;
    var targets := manager.peers.Keys;
    while targets != {}
      invariant manager.Valid() && manager.value == c && targets <= manager.peers.Keys
      invariant forall pkt :: pkt in sent <==> exists t, s, p | t !in targets && Receives(c, t, s, p) ::
                                 pkt == SyncRoute(t, c.peers[t].addr, Stamp(c.peers[s].info, p))
      decreases targets
    {
      var t :| t in targets;
      targets := targets - {t};
      if manager.now < manager.peers[t].at + manager.ttl {
        var toTarget := SendRoutesTo(manager, t);
        sent := sent + toTarget;
      }
    }
    BroadcastTells(c);
  }

  /** The packets of one broadcast for one target. */
  method SendRoutesTo(manager: PeerManager, t: PeerId) returns (sent: set<Packet>)
    requires manager.Valid() && IsLive(manager.value, t)
    ensures forall pkt :: pkt in sent <==> exists s, p | Receives(manager.value, t, s, p) ::
                            pkt == SyncRoute(t, manager.value.peers[t].addr, Stamp(manager.value.peers[s].info, p))
  {
    sent := {};
    ghost var c := manager.value;
    var sources := manager.peers.Keys;
    while sources != {}
      invariant sources <= manager.peers.Keys
      invariant forall pkt :: pkt in sent <==> exists s, p | s !in sources && Receives(c, t, s, p) ::
                                 pkt == SyncRoute(t, c.peers[t].addr, Stamp(c.peers[s].info, p))
      decreases sources
    {
      var s :| s in sources;
      sources := sources - {s};
      var stored := manager.peers[s];
      if manager.now < stored.at + manager.ttl && s != t && stored.network == manager.peers[t].network {
        var entries := EntriesFor(t, manager.peers[t].addr, stored.info);
        sent := sent + entries;
      }
    }
  }

  method EntriesFor(t: PeerId, to: SocketAddr, host: HostInfo) returns (sent: set<Packet>)
    ensures forall pkt :: pkt in sent <==> exists p | p in host.peers && p.peerId != t :: pkt == SyncRoute(t, to, Stamp(host, p))
  {
    sent := {};
    for i := 0 to |host.peers|
      invariant forall pkt :: pkt in sent <==> exists p | p in host.peers[..i] && p.peerId != t :: pkt == SyncRoute(t, to, Stamp(host, p))
    {
      var p := host.peers[i];
      assert host.peers[..i + 1] == host.peers[..i] + [p];
      if p.peerId != t {
        sent := sent + {SyncRoute(t, to, Stamp(host, p))};
      }
    }
    assert host.peers[..|host.peers|] == host.peers;
  }

  // ---- tombstones --------------------------------------------------------------------------------

  /** The tombstones for a dead peer: its entries in its own network, to every other live member. */
  function Burials(c: Cache, dead: Gone): set<Packet> {
    set t, p | t in c.peers && IsLive(c, t) && t != dead.peerId && c.peers[t].network == dead.network
               && p in dead.info.peers && p.network == dead.network ::
      SyncRoute(t, c.peers[t].addr, p.(version := dead.info.version, withdrawn := true))
  }

  /** `pkt` tells another live member of the dead peer's network that one of its entries there is withdrawn. */
  ghost predicate Buries(c: Cache, dead: Gone, pkt: Packet) {
    exists t, p | t in c.peers && p in dead.info.peers ::
      && c.now < c.peers[t].at + c.ttl
      && t != dead.peerId && c.peers[t].network == dead.network && p.network == dead.network
      && pkt.target == t && pkt.to == c.peers[t].addr
      && pkt.info.withdrawn && pkt.info.version == dead.info.version
      && pkt.info.peerId == p.peerId && pkt.info.noeioIp == p.noeioIp && pkt.info.network == p.network
      && pkt.info.advertisedRoutes == p.advertisedRoutes && pkt.info.localAddrs == p.localAddrs
      && pkt.info.natType == p.natType && pkt.info.natAddr == p.natAddr
  }

  /** Exactly these tombstones are sent: every such member is told, and nobody else. */
  lemma BurialsTell(c: Cache, dead: Gone, pkt: Packet)
    ensures pkt in Burials(c, dead) <==> Buries(c, dead, pkt)
  {
    if Buries(c, dead, pkt) {
      var t, p :| t in c.peers && p in dead.info.peers && IsLive(c, t)
                  && t != dead.peerId && c.peers[t].network == dead.network && p.network == dead.network
                  && pkt.target == t && pkt.to == c.peers[t].addr
                  && pkt.info == p.(version := dead.info.version, withdrawn := true);
      assert pkt == SyncRoute(t, c.peers[t].addr, p.(version := dead.info.version, withdrawn := true));
    }
  }

  method HandleGone(manager: PeerManager, dead: Gone) returns (sent: set<Packet>)
    requires manager.Valid()
    ensures sent == Burials(manager.value, dead) && forall pkt :: pkt in sent <==> Buries(manager.value, dead, pkt)
  {
    sent := {};
    ghost var c := manager.value;
    for i := 0 to |dead.info.peers|
      invariant sent == Burials(c, dead.(info := dead.info.(peers := dead.info.peers[..i])))
    {
      var p := dead.info.peers[i];
      assert dead.info.peers[..i + 1] == dead.info.peers[..i] + [p];
      if p.network == dead.network {
        var tombstone := p.(version := dead.info.version, withdrawn := true);
        var copies := set t | t in manager.peers && manager.now < manager.peers[t].at + manager.ttl
                              && t != dead.peerId && manager.peers[t].network == dead.network ::
                        SyncRoute(t, manager.peers[t].addr, tombstone);
        sent := sent + copies;
      }
    }
    assert dead.info.peers[..|dead.info.peers|] == dead.info.peers;
    forall pkt
      ensures pkt in Burials(c, dead) <==> Buries(c, dead, pkt)
    {
      BurialsTell(c, dead, pkt);
    }
  }

  // ---- relaying ------------------------------------------------------------------------------------

  datatype Header = Forward(target: PeerId, port: nat) | Delivery(sender: PeerId, port: nat)

  /** A Forward turns into a Delivery whose sender is looked up by the source address, not taken from the packet. */
  function RelayForward(c: Cache, source: SocketAddr, target: PeerId, port: nat): Option<(SocketAddr, Header)> {
    match Get(c, target)
    case None => None
    case Some(t) =>
      match PeerIdByAddr(c, source, t.network)
      case None => None
      case Some(sender) => Some((t.addr, Delivery(sender, port)))
  }

  /** Live, and in that network registered at that address. */
  predicate IsSender(c: Cache, source: SocketAddr, network: NetworkId, id: PeerId) {
    IsLive(c, id) && c.peers[id].addr == source && c.peers[id].network == network
  }

  /**
   In every run without two live ids at one address and network, a Forward is
   relayed if and only if its target is live and some live member of the target's
   network is registered at the source; it goes to the target's address, and the
   sender it is stamped with is that member and no other.
   */
  lemma RelaysExactlyMembers(start: Cache, events: seq<Event>, source: SocketAddr, target: PeerId, port: nat)
    requires IndexComplete(start) && SharesNowhere(start, events)
    ensures var c := AfterAll(start, events);
            var relayed := RelayForward(c, source, target, port);
            && (relayed.Some? <==> IsLive(c, target) && exists id: PeerId :: IsSender(c, source, c.peers[target].network, id))
            && (relayed.Some? ==>
                  && relayed.value.0 == c.peers[target].addr
                  && relayed.value.1.Delivery? && relayed.value.1.port == port
                  && forall id: PeerId :: IsSender(c, source, c.peers[target].network, id) <==> id == relayed.value.1.sender)
  {
    var c := AfterAll(start, events);
    if IsLive(c, target) {
      var network := c.peers[target].network;
      IndexIsScan(start, events, source, network);
      forall id: PeerId | IsSender(c, source, network, id)
        ensures PeerIdByAddr(c, source, network) == Some(id)
      {
        assert IsScanResult(c, source, network, Some(id));
      }
      match PeerIdByAddr(c, source, network)
      case Some(id) => assert IsSender(c, source, network, id);
      case None =>
    }
  }
}
