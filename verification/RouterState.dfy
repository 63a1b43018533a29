/**
 The router as a value: the peers by overlay address, the index from ids to
 addresses, and the accepted subnet table. Every message is a function from one
 such value to the next.
 */
module RouterState {
  import opened Wrappers
  import opened Bits
  import opened Cidrs
  import opened HostInfos
  import opened RouteTable

  /** A stored peer: what it broadcast, and our own id (hence nic) in its network. */
  datatype PeerEntry = PeerEntry(info: PeerInfo, nic: PeerId)

  datatype State = State(peers: map<IpAddr, PeerEntry>, byPeerId: map<PeerId, IpAddr>, subnets: seq<Entry>)

  const EMPTY := State(map[], map[], [])

  // ---- operations ---------------------------------------------------------------------------

  function Get(s: State, ip: IpAddr): Option<PeerEntry> {
    if ip in s.peers then Some(s.peers[ip]) else None
  }

  function GetByPeerId(s: State, id: PeerId): Option<PeerEntry> {
    if id in s.byPeerId then Get(s, s.byPeerId[id]) else None
  }

  /** The owner of the address if it is stored, or else the exit of the first table entry that contains it. */
  function Lookup(s: State, ip: IpAddr): Option<PeerEntry> {
    if ip in s.peers then Some(s.peers[ip])
    else match ip
      case V6(_) => None
      case V4(a) =>
        match FirstMatch(s.subnets, a)
        case None => None
        case Some(e) => GetByPeerId(s, e.exit)
  }

  /** Store `entry` under its IP, dropping the index entry of a displaced occupant with another id. */
  function Insert(s: State, entry: PeerEntry): State {
    var ip, id := entry.info.noeioIp, entry.info.peerId;
    var index := if ip in s.peers && s.peers[ip].info.peerId != id then s.byPeerId - {s.peers[ip].info.peerId}
                 else s.byPeerId;
    s.(peers := s.peers[ip := entry], byPeerId := index[id := ip])
  }

  function WithoutExit(table: seq<Entry>, id: PeerId): (r: seq<Entry>)
    ensures forall e :: e in r <==> e in table && e.exit != id
  {
    if table == [] then []
    else if table[0].exit == id then WithoutExit(table[1..], id)
    else [table[0]] + WithoutExit(table[1..], id)
  }

  function Remove(s: State, ip: IpAddr): State {
    if ip !in s.peers then s
    else
      var id := s.peers[ip].info.peerId;
      State(s.peers - {ip}, s.byPeerId - {id}, WithoutExit(s.subnets, id))
  }

  function RemoveByPeerId(s: State, id: PeerId): State {
    if id in s.byPeerId then Remove(s, s.byPeerId[id]) else s
  }

  /** The source is the peer itself, or lies in one of its advertised prefixes. */
  predicate AllowedSource(info: PeerInfo, src: IpAddr) {
    src == info.noeioIp || (src.V4? && exists c | c in info.advertisedRoutes :: ContainsAddr(c, src.v4))
  }

  /** Whether a SyncRoute changes the table: a tombstone for a known id, an unknown IP, or a newer version. */
  predicate Applies(s: State, info: PeerInfo) {
    if info.withdrawn then info.peerId in s.byPeerId && s.byPeerId[info.peerId] in s.peers
    else info.noeioIp in s.peers ==> info.version > s.peers[info.noeioIp].info.version
  }

  function ApplySyncRoute(s: State, info: PeerInfo, nic: PeerId): State {
    if !Applies(s, info) then s
    else if info.withdrawn then RemoveByPeerId(s, info.peerId)
    else Insert(s, PeerEntry(info, nic))
  }

  // ---- the index invariant --------------------------------------------------------------------

  /** Every index entry leads to a stored peer with that id, and every peer is stored under its own IP. */
  ghost predicate IndexSound(s: State) {
    && (forall ip | ip in s.peers :: s.peers[ip].info.noeioIp == ip)
    && (forall id | id in s.byPeerId :: s.byPeerId[id] in s.peers && s.peers[s.byPeerId[id]].info.peerId == id)
  }

  /** The two maps are exact inverses. */
  ghost predicate IndexExact(s: State) {
    && IndexSound(s)
    && forall ip | ip in s.peers :: s.peers[ip].info.peerId in s.byPeerId && s.byPeerId[s.peers[ip].info.peerId] == ip
  }

  /** The incoming id is already held at a different IP by a peer the message would not replace. */
  predicate Conflicts(s: State, info: PeerInfo) {
    && !info.withdrawn
    && Applies(s, info)
    && exists ip | ip in s.peers :: ip != info.noeioIp && s.peers[ip].info.peerId == info.peerId
  }

  lemma ApplyKeepsIndexSound(s: State, info: PeerInfo, nic: PeerId)
    requires IndexSound(s)
    ensures IndexSound(ApplySyncRoute(s, info, nic))
  {
  }

  /** From exact maps, one SyncRoute leaves exact maps if and only if it does not conflict. */
  lemma ApplyKeepsIndexExactIff(s: State, info: PeerInfo, nic: PeerId)
    requires IndexExact(s)
    ensures IndexExact(ApplySyncRoute(s, info, nic)) <==> !Conflicts(s, info)
  {
    var s' := ApplySyncRoute(s, info, nic);
    ApplyKeepsIndexSound(s, info, nic);
    if Conflicts(s, info) {
      var ip :| ip in s.peers && ip != info.noeioIp && s.peers[ip].info.peerId == info.peerId;
      assert ip in s'.peers && s'.byPeerId[info.peerId] == info.noeioIp;
    } else if Applies(s, info) {
      forall ip | ip in s'.peers
        ensures s'.peers[ip].info.peerId in s'.byPeerId && s'.byPeerId[s'.peers[ip].info.peerId] == ip
      {
        assert ip != info.noeioIp || info.withdrawn ==> ip in s.peers && s'.peers[ip] == s.peers[ip];
      }
    }
  }

  datatype Event = Sync(info: PeerInfo, nic: PeerId) | Refresh(entries: seq<Entry>)

  function After(s: State, e: Event): State {
    match e
    case Sync(info, nic) => ApplySyncRoute(s, info, nic)
    case Refresh(entries) => s.(subnets := Canonical(entries))
  }

  function AfterAll(s: State, events: seq<Event>): State
    decreases events
  {
    if events == [] then s else AfterAll(After(s, events[0]), events[1..])
  }

  predicate ConflictFree(s: State, events: seq<Event>)
    decreases events
  {
    events != [] ==>
      && (events[0].Sync? ==> !Conflicts(s, events[0].info))
      && ConflictFree(After(s, events[0]), events[1..])
  }

  /** In every run of inserts, updates, tombstones and refreshes the index is sound; without conflicts it is exact. */
  lemma {:induction false} RunKeepsIndex(s: State, events: seq<Event>)
    requires IndexSound(s)
    ensures IndexSound(AfterAll(s, events))
    ensures IndexExact(s) && ConflictFree(s, events) ==> IndexExact(AfterAll(s, events))
    decreases events
  {
    if events != [] {
      if events[0].Sync? {
        ApplyKeepsIndexSound(s, events[0].info, events[0].nic);
        if IndexExact(s) {
          ApplyKeepsIndexExactIff(s, events[0].info, events[0].nic);
        }
      }
      RunKeepsIndex(After(s, events[0]), events[1..]);
    }
  }

  /** A conflict really loses a peer: the id resolves to its new IP and the old holder has no index entry left. */
  lemma ConflictHidesTheOldHolder(first: PeerInfo, second: PeerInfo, nic: PeerId)
    requires !first.withdrawn && !second.withdrawn && first.peerId == second.peerId && first.noeioIp != second.noeioIp
    ensures var s := AfterAll(EMPTY, [Sync(first, nic), Sync(second, nic)]);
            && first.noeioIp in s.peers && GetByPeerId(s, first.peerId) == Some(PeerEntry(second, nic))
            && !IndexExact(s)
  {
    var events := [Sync(first, nic), Sync(second, nic)];
    var s1 := After(EMPTY, events[0]);
    var s2 := After(s1, events[1]);
    assert events[1..] == [events[1]] && events[1..][1..] == [];
    assert AfterAll(s1, events[1..]) == AfterAll(s2, []);
    assert AfterAll(EMPTY, events) == s2;
    assert s2.byPeerId[first.peerId] == second.noeioIp;
  }

  /**
   A report changes exactly one thing, what is stored at its address, and that if
   and only if nothing is stored there or its version is higher; then its id
   resolves to it, and another id that was stored there no longer resolves.
   */
  lemma ReportMeaning(s: State, info: PeerInfo, nic: PeerId)
    requires IndexExact(s) && !info.withdrawn && !Conflicts(s, info)
    ensures var s', ip := ApplySyncRoute(s, info, nic), info.noeioIp;
            var applied := ip in s.peers ==> info.version > s.peers[ip].info.version;
            && s'.subnets == s.subnets
            && s'.peers == (if applied then s.peers[ip := PeerEntry(info, nic)] else s.peers)
            && forall id :: GetByPeerId(s', id) ==
                 if !applied then GetByPeerId(s, id)
                 else if id == info.peerId then Some(PeerEntry(info, nic))
                 else if ip in s.peers && id == s.peers[ip].info.peerId then None
                 else GetByPeerId(s, id)
  {
  }

  /** A peer may send from its own address and from inside the blocks it advertises, and from nowhere else. */
  lemma SourceIsAllowedIff(info: PeerInfo, src: IpAddr)
    ensures AllowedSource(info, src) <==>
            || src == info.noeioIp
            || (src.V4? && exists c | c in info.advertisedRoutes ::
                  Network(c).address <= src.v4 < Network(c).address + Pow2(32 - c.prefixLen))
  {
    if src.V4? {
      forall c | c in info.advertisedRoutes
        ensures ContainsAddr(c, src.v4) <==> Network(c).address <= src.v4 < Network(c).address + Pow2(32 - c.prefixLen)
      {
        ContainsIsRange(c, src.v4);
      }
    }
  }

  /** Only a tombstone can lower the version stored at an IP. */
  lemma VersionsRise(s: State, info: PeerInfo, nic: PeerId, ip: IpAddr)
    requires ip in s.peers && !info.withdrawn
    ensures var s' := ApplySyncRoute(s, info, nic);
            && ip in s'.peers && s'.peers[ip].info.version >= s.peers[ip].info.version
            && (s'.peers[ip].info.version == s.peers[ip].info.version ==> s'.peers[ip] == s.peers[ip])
  {
  }

  /** After a tombstone the peer and its table entries are gone, all others are as before, and a second copy does nothing. */
  lemma TombstoneRemovesEverything(s: State, info: PeerInfo, nic: PeerId)
    requires IndexExact(s) && info.withdrawn && info.peerId in s.byPeerId
    ensures var s' := ApplySyncRoute(s, info, nic);
            && GetByPeerId(s', info.peerId) == None
            && s'.peers.Keys == s.peers.Keys - {s.byPeerId[info.peerId]}
            && (forall e | e in s'.subnets :: e.exit != info.peerId)
            && (forall id | id != info.peerId :: GetByPeerId(s', id) == GetByPeerId(s, id))
            && !Applies(s', info)
  {
  }
}
