/**
 Route synchronisation when peers come and go. As in `SyncProtocol`, but time
 passes, entries expire, and the relay broadcasts tombstones, which carry no
 version check at the receiver. The network still reorders and duplicates, so a
 packet about an earlier life of a peer may arrive during a later one. Every
 host reports its own news in order.
 */
module SyncExpiry {
  import opened Wrappers
  import opened Cidrs
  import opened HostInfos
  import opened PeerCache
  import opened Relay
  import opened SyncProtocol
  import R = RouterState

  /** `latest` is each host's newest report, `logs` what each node has received, and `buried` counts the tombstones broadcast. */
  datatype Mesh = Mesh(
    hosts: map<PeerId, Host>,
    latest: map<PeerId, HostInfo>,
    cache: Cache,
    buried: nat,
    sent: set<Packet>,
    pending: set<Packet>,
    logs: map<PeerId, seq<PeerInfo>>,
    routers: map<PeerId, R.State>)

  datatype Move =
    | Reports(id: PeerId, info: HostInfo)
    | Passes(ms: nat)
    | Evicts(id: PeerId)
    | Buries
    | Syncs
    | Delivers(packet: Packet)

  predicate Possible(m: Mesh, e: Move) {
    match e
    case Reports(id, info) =>
      && |info.peers| == 1 && IsOwnEntry(m.hosts, id, info.peers[0])
      && (id in m.latest ==> info == m.latest[id] || info.version > m.latest[id].version)
    case Passes(_) => true
    case Evicts(_) => true
    case Buries => m.buried < |m.cache.gone|
    case Syncs => m.cache.triggered
    case Delivers(packet) => packet in m.sent && packet.target in m.routers && packet.target in m.logs
  }

  function Send(m: Mesh, packets: set<Packet>): Mesh {
    m.(sent := m.sent + packets, pending := m.pending + packets)
  }

  function Receive(m: Mesh, packet: Packet): Mesh
    requires packet.target in m.routers && packet.target in m.logs
  {
    var t := packet.target;
    m.(routers := m.routers[t := R.ApplySyncRoute(m.routers[t], packet.info, t)],
       logs := m.logs[t := m.logs[t] + [packet.info]],
       pending := m.pending - {packet})
  }

  function Make(m: Mesh, e: Move): Mesh
    requires Possible(m, e)
  {
    match e
    case Reports(id, info) =>
      m.(latest := m.latest[id := info], cache := Heartbeat(m.cache, id, info, m.hosts[id].addr, m.hosts[id].network))
    case Passes(ms) => m.(cache := m.cache.(now := m.cache.now + ms))
    case Evicts(id) => m.(cache := Evict(m.cache, id))
    case Buries => Send(m, Burials(m.cache, m.cache.gone[m.buried])).(buried := m.buried + 1)
    case Syncs => Send(m.(cache := m.cache.(triggered := false)), Broadcast(m.cache))
    case Delivers(packet) => Receive(m, packet)
  }

  ghost predicate Begins(m: Mesh) {
    && WellFormed(m.hosts)
    && m.latest == map[] && m.buried == 0 && m.sent == {} && m.pending == {}
    && m.cache.ttl > 0 && m.cache.peers == map[] && m.cache.gone == [] && !m.cache.triggered
    && m.routers.Keys == m.hosts.Keys && m.logs.Keys == m.hosts.Keys
    && forall id | id in m.hosts :: m.routers[id] == R.EMPTY && m.logs[id] == []
  }

  ghost predicate Moves(m: Mesh, m': Mesh) {
    exists e :: Possible(m, e) && m' == Make(m, e)
  }

  ghost predicate IsHistory(run: seq<Mesh>) {
    && run != [] && Begins(run[0])
    && forall i: nat | 0 < i < |run| :: Moves(run[i - 1], run[i])
  }

  // ---- a router is the fold of what it received -------------------------------------------------

  function FoldAll(log: seq<PeerInfo>, nic: PeerId): R.State {
    if log == [] then R.EMPTY
    else R.ApplySyncRoute(FoldAll(log[..|log| - 1], nic), log[|log| - 1], nic)
  }

  /** The newest report about `s` since the last tombstone for it, the first of equals. */
  function Heard(log: seq<PeerInfo>, s: PeerId): Option<PeerInfo> {
    if log == [] then None
    else
      var before, x := Heard(log[..|log| - 1], s), log[|log| - 1];
      if x.peerId != s then before
      else if x.withdrawn then None
      else if before.Some? && x.version <= before.value.version then before
      else Some(x)
  }

  /** `x` is about another host of the network of `t`, at that host's address. */
  predicate Concerns(hosts: map<PeerId, Host>, t: PeerId, x: PeerInfo) {
    && t in hosts && x.peerId in hosts && x.peerId != t
    && hosts[x.peerId].network == hosts[t].network && x.noeioIp == hosts[x.peerId].ip
  }

  function Held(r: R.State, s: PeerId): Option<PeerInfo> {
    match R.GetByPeerId(r, s)
    case None => None
    case Some(e) => Some(e.info)
  }

  ghost predicate IsFold(hosts: map<PeerId, Host>, t: PeerId, log: seq<PeerInfo>, r: R.State) {
    && R.IndexExact(r)
    && (forall ip | ip in r.peers :: Concerns(hosts, t, r.peers[ip].info))
    && (forall s :: Held(r, s) == Heard(log, s))
  }

  lemma FoldStep(hosts: map<PeerId, Host>, t: PeerId, log: seq<PeerInfo>, r: R.State, x: PeerInfo)
    requires WellFormed(hosts) && Concerns(hosts, t, x) && IsFold(hosts, t, log, r)
    ensures IsFold(hosts, t, log + [x], R.ApplySyncRoute(r, x, t))
  {
    var r' := R.ApplySyncRoute(r, x, t);
    assert !R.Conflicts(r, x);
    R.ApplyKeepsIndexExactIff(r, x, t);
    forall s
      ensures Held(r', s) == Heard(log + [x], s)
    {
      assert (log + [x])[..|log|] == log;
      assert Held(r, s) == Heard(log, s);
      HeldStep(hosts, t, r, x, s);
    }
  }

  lemma HeldStep(hosts: map<PeerId, Host>, t: PeerId, r: R.State, x: PeerInfo, s: PeerId)
    requires WellFormed(hosts) && Concerns(hosts, t, x) && R.IndexExact(r)
    requires forall ip | ip in r.peers :: Concerns(hosts, t, r.peers[ip].info)
    ensures Held(R.ApplySyncRoute(r, x, t), s) ==
            if x.peerId != s then Held(r, s)
            else if x.withdrawn then None
            else if Held(r, s).Some? && x.version <= Held(r, s).value.version then Held(r, s)
            else Some(x)
  {
  }

  /** Every router holds of every peer what the packets it received say, in the order it received them. */
  lemma {:induction false} FoldIsHeard(hosts: map<PeerId, Host>, t: PeerId, log: seq<PeerInfo>)
    requires WellFormed(hosts) && forall x | x in log :: Concerns(hosts, t, x)
    ensures IsFold(hosts, t, log, FoldAll(log, t))
  {
    if log != [] {
      var init, x := log[..|log| - 1], log[|log| - 1];
      FoldIsHeard(hosts, t, init);
      FoldStep(hosts, t, init, FoldAll(init, t), x);
      assert init + [x] == log;
    }
  }

  // ---- what the order of packets decides ------------------------------------------------------------

  ghost predicate IsTombstoneAt(log: seq<PeerInfo>, s: PeerId, j: nat) {
    j < |log| && log[j].peerId == s && log[j].withdrawn
  }

  ghost predicate IsReportAt(log: seq<PeerInfo>, s: PeerId, j: nat) {
    j < |log| && log[j].peerId == s && !log[j].withdrawn
  }

  /** A tombstone for `s` arrived, and `news` did not arrive after it. */
  ghost predicate LateTombstone(log: seq<PeerInfo>, s: PeerId, news: PeerInfo) {
    exists j: nat :: IsTombstoneAt(log, s, j) && news !in log[j..]
  }

  /** A report about `s` arrived, and no tombstone for it after that. */
  ghost predicate UnburiedReport(log: seq<PeerInfo>, s: PeerId) {
    exists j: nat :: IsReportAt(log, s, j) && forall k: nat | j < k :: !IsTombstoneAt(log, s, k)
  }

  lemma {:induction false} HeardIffUnburied(log: seq<PeerInfo>, s: PeerId)
    ensures Heard(log, s).Some? <==> UnburiedReport(log, s)
  {
    if log != [] {
      var n := |log| - 1;
      var init := log[..n];
      HeardIffUnburied(init, s);
      assert forall k: nat | k < n :: init[k] == log[k];
      if j: nat :| IsReportAt(init, s, j) && forall k: nat | j < k :: !IsTombstoneAt(init, s, k) {
        if !IsTombstoneAt(log, s, n) {
          assert IsReportAt(log, s, j);
          forall k: nat | j < k
            ensures !IsTombstoneAt(log, s, k)
          {
            assert k < n ==> !IsTombstoneAt(init, s, k);
          }
        }
      }
      if IsReportAt(log, s, n) {
        assert forall k: nat | n < k :: !IsTombstoneAt(log, s, k);
      }
      if j: nat :| IsReportAt(log, s, j) && forall k: nat | j < k :: !IsTombstoneAt(log, s, k) {
        if j < n {
          assert !IsTombstoneAt(log, s, n);
          assert IsReportAt(init, s, j);
          forall k: nat | j < k
            ensures !IsTombstoneAt(init, s, k)
          {
            assert !IsTombstoneAt(log, s, k);
          }
        }
      }
    }
  }

  /** No report about `news.peerId` in the log is newer than `news`, or another of the same version. */
  ghost predicate IsNewest(log: seq<PeerInfo>, news: PeerInfo) {
    && !news.withdrawn
    && forall x | x in log && x.peerId == news.peerId && !x.withdrawn ::
         x.version <= news.version && (x.version == news.version ==> x == news)
  }

  lemma {:induction false} HeardNews(log: seq<PeerInfo>, news: PeerInfo)
    requires IsNewest(log, news)
    ensures Heard(log, news.peerId) == Some(news) <==> news in log && !LateTombstone(log, news.peerId, news)
    ensures match Heard(log, news.peerId)
            case None => true
            case Some(x) => x in log && x.peerId == news.peerId && !x.withdrawn
  {
    if log != [] {
      var n := |log| - 1;
      var init, x := log[..n], log[n];
      assert log == init + [x];
      HeardNews(init, news);
      LateStep(init, x, news);
    }
  }

  lemma LateStep(init: seq<PeerInfo>, x: PeerInfo, news: PeerInfo)
    requires !news.withdrawn
    ensures var log, s := init + [x], news.peerId;
            LateTombstone(log, s, news) <==>
            if x == news then false
            else if x.peerId == s && x.withdrawn then true
            else LateTombstone(init, s, news)
  {
    var log, s, n := init + [x], news.peerId, |init|;
    forall j: nat | j <= n
      ensures log[j..] == init[j..] + [x]
    {
    }
    if x.peerId == s && x.withdrawn {
      assert IsTombstoneAt(log, s, n) && log[n..] == [x];
    }
    if j: nat :| IsTombstoneAt(init, s, j) && news !in init[j..] {
      assert IsTombstoneAt(log, s, j);
    }
    if j: nat :| IsTombstoneAt(log, s, j) && news !in log[j..] {
      if j < n {
        assert IsTombstoneAt(init, s, j);
      }
      assert x in log[j..];
    }
  }

  // ---- the invariant ----------------------------------------------------------------------------------

  type Latest = map<PeerId, HostInfo>

  /** The newest the host `id` has said of itself, as the relay broadcasts it. */
  function News(latest: Latest, id: PeerId): PeerInfo
    requires id in latest && latest[id].peers != []
  {
    Stamp(latest[id], latest[id].peers[0])
  }

  ghost predicate LatestOk(hosts: map<PeerId, Host>, latest: Latest) {
    forall id | id in latest :: |latest[id].peers| == 1 && IsOwnEntry(hosts, id, latest[id].peers[0])
  }

  /** The relay holds of each peer its newest report. */
  ghost predicate CacheOk(hosts: map<PeerId, Host>, latest: Latest, c: Cache) {
    c.ttl > 0
    && forall id | id in c.peers ::
         && id in hosts && id in latest && c.peers[id].info == latest[id]
         && c.peers[id].addr == hosts[id].addr && c.peers[id].network == hosts[id].network
  }

  /** The dead are remembered as they were. */
  ghost predicate GoneOk(hosts: map<PeerId, Host>, gone: seq<Gone>) {
    forall g | g in gone ::
      |g.info.peers| == 1 && IsOwnEntry(hosts, g.peerId, g.info.peers[0]) && g.network == hosts[g.peerId].network
  }

  /** What `t` may be told: about another host of its network, and of its reports none newer than its newest. */
  ghost predicate MayBeTold(hosts: map<PeerId, Host>, latest: Latest, t: PeerId, x: PeerInfo) {
    && Concerns(hosts, t, x)
    && (!x.withdrawn ==>
          && x.peerId in latest && latest[x.peerId].peers != [] && x.version <= latest[x.peerId].version
          && (x.version == latest[x.peerId].version ==> x == News(latest, x.peerId)))
  }

  ghost predicate PacketsOk(hosts: map<PeerId, Host>, latest: Latest, packets: set<Packet>) {
    forall p | p in packets :: MayBeTold(hosts, latest, p.target, p.info)
  }

  ghost predicate LogsOk(hosts: map<PeerId, Host>, latest: Latest, logs: map<PeerId, seq<PeerInfo>>) {
    logs.Keys == hosts.Keys && forall t, x | t in logs && x in logs[t] :: MayBeTold(hosts, latest, t, x)
  }

  ghost predicate RoutersOk(logs: map<PeerId, seq<PeerInfo>>, routers: map<PeerId, R.State>) {
    routers.Keys == logs.Keys && forall t | t in logs :: routers[t] == FoldAll(logs[t], t)
  }

  /** Both are live, in one network. */
  predicate Meet(hosts: map<PeerId, Host>, c: Cache, t: PeerId, s: PeerId) {
    && IsLive(c, t) && IsLive(c, s) && t != s
    && t in hosts && s in hosts && hosts[t].network == hosts[s].network
  }

  /** What `t` is to hear of `s` is about to be sent, on its way, or has arrived. */
  ghost predicate NewsOnTheWay(m: Mesh, t: PeerId, s: PeerId)
    requires t in m.hosts
  {
    || m.cache.triggered
    || (s in m.latest && m.latest[s].peers != [] && t in m.logs
        && (SyncRoute(t, m.hosts[t].addr, News(m.latest, s)) in m.pending || News(m.latest, s) in m.logs[t]))
  }

  ghost predicate ProgressOk(m: Mesh) {
    forall t, s | Meet(m.hosts, m.cache, t, s) :: NewsOnTheWay(m, t, s)
  }

  ghost predicate MeshOk(m: Mesh) {
    && WellFormed(m.hosts) && LatestOk(m.hosts, m.latest)
    && CacheOk(m.hosts, m.latest, m.cache) && GoneOk(m.hosts, m.cache.gone) && m.buried <= |m.cache.gone|
    && PacketsOk(m.hosts, m.latest, m.sent) && m.pending <= m.sent
    && LogsOk(m.hosts, m.latest, m.logs) && RoutersOk(m.logs, m.routers)
    && ProgressOk(m)
  }

  // ---- every move keeps it --------------------------------------------------------------------------------

  /** A report refreshes the entry, and triggers unless the relay already had that very report from a live peer. */
  lemma HeartbeatEffect(c: Cache, id: PeerId, info: HostInfo, addr: SocketAddr, network: NetworkId)
    requires IsLive(c, id) ==> c.peers[id].addr == addr && c.peers[id].network == network
    requires IsLive(c, id) ==> info == c.peers[id].info || info.version > c.peers[id].info.version
    ensures var c' := Heartbeat(c, id, info, addr, network);
            && c'.peers == c.peers[id := Stored(addr, info, network, c.now)]
            && c'.ttl == c.ttl && c'.now == c.now
            && c'.triggered == (c.triggered || !IsLive(c, id) || info != c.peers[id].info)
            && c'.gone == c.gone + if id in c.peers && !IsLive(c, id) then [TombstoneOf(c, id)] else []
  {
    HeartbeatMeaning(c, id, info, addr, network);
  }

  lemma OldNewsStaysOld(hosts: map<PeerId, Host>, latest: Latest, id: PeerId, info: HostInfo, t: PeerId, x: PeerInfo)
    requires MayBeTold(hosts, latest, t, x) && info.peers != []
    requires id in latest ==> info == latest[id] || info.version > latest[id].version
    ensures MayBeTold(hosts, latest[id := info], t, x)
  {
  }

  lemma ReportKeepsCache(hosts: map<PeerId, Host>, latest: Latest, c: Cache, id: PeerId, info: HostInfo)
    requires LatestOk(hosts, latest) && CacheOk(hosts, latest, c) && GoneOk(hosts, c.gone)
    requires |info.peers| == 1 && IsOwnEntry(hosts, id, info.peers[0])
    requires id in latest ==> info == latest[id] || info.version > latest[id].version
    ensures var c', latest' := Heartbeat(c, id, info, hosts[id].addr, hosts[id].network), latest[id := info];
            && CacheOk(hosts, latest', c') && GoneOk(hosts, c'.gone) && |c.gone| <= |c'.gone|
            && (c'.triggered || (latest' == latest && !c.triggered && forall p | IsLive(c', p) :: IsLive(c, p)))
  {
    HeartbeatEffect(c, id, info, hosts[id].addr, hosts[id].network);
  }

  lemma ReportsKeep(m: Mesh, id: PeerId, info: HostInfo)
    requires MeshOk(m) && Possible(m, Reports(id, info))
    ensures MeshOk(Make(m, Reports(id, info)))
  {
    var m' := Make(m, Reports(id, info));
    ReportKeepsCache(m.hosts, m.latest, m.cache, id, info);
    forall p | p in m'.sent
      ensures MayBeTold(m'.hosts, m'.latest, p.target, p.info)
    {
      OldNewsStaysOld(m.hosts, m.latest, id, info, p.target, p.info);
    }
    forall t, x | t in m'.logs && x in m'.logs[t]
      ensures MayBeTold(m'.hosts, m'.latest, t, x)
    {
      OldNewsStaysOld(m.hosts, m.latest, id, info, t, x);
    }
    forall t, s | Meet(m'.hosts, m'.cache, t, s)
      ensures NewsOnTheWay(m', t, s)
    {
      assert m'.cache.triggered || Meet(m.hosts, m.cache, t, s);
    }
  }

  /** When time passes or an entry is evicted, peers only cease to be live. */
  lemma AgeingKeepsCache(hosts: map<PeerId, Host>, latest: Latest, c: Cache, e: PeerCache.Event)
    requires LatestOk(hosts, latest) && CacheOk(hosts, latest, c) && GoneOk(hosts, c.gone) && (e.Tick? || e.Eviction?)
    ensures var c' := PeerCache.After(c, e);
            && CacheOk(hosts, latest, c') && GoneOk(hosts, c'.gone) && |c.gone| <= |c'.gone|
            && c'.triggered == c.triggered && forall p | IsLive(c', p) :: IsLive(c, p)
  {
  }

  lemma AgeingKeeps(m: Mesh, e: Move)
    requires MeshOk(m) && Possible(m, e) && (e.Passes? || e.Evicts?)
    ensures MeshOk(Make(m, e))
  {
    var m' := Make(m, e);
    AgeingKeepsCache(m.hosts, m.latest, m.cache, if e.Passes? then PeerCache.Tick(e.ms) else PeerCache.Eviction(e.id));
    forall t, s | Meet(m'.hosts, m'.cache, t, s)
      ensures NewsOnTheWay(m', t, s)
    {
      assert Meet(m.hosts, m.cache, t, s);
    }
  }

  /** Whoever a tombstone is sent to may be told it. */
  lemma BurialsMayBeTold(m: Mesh, dead: Gone, p: Packet)
    requires MeshOk(m) && dead in m.cache.gone && p in Burials(m.cache, dead)
    ensures MayBeTold(m.hosts, m.latest, p.target, p.info)
  {
  }

  lemma BuriesKeeps(m: Mesh)
    requires MeshOk(m) && Possible(m, Buries)
    ensures MeshOk(Make(m, Buries))
  {
    var m', dead := Make(m, Buries), m.cache.gone[m.buried];
    forall p | p in m'.sent
      ensures MayBeTold(m.hosts, m.latest, p.target, p.info)
    {
      if p in Burials(m.cache, dead) {
        BurialsMayBeTold(m, dead, p);
      }
    }
    forall t, s | Meet(m'.hosts, m'.cache, t, s)
      ensures NewsOnTheWay(m', t, s)
    {
      assert NewsOnTheWay(m, t, s);
    }
  }

  /** A broadcast tells every live peer the newest of every other live peer of its network, and nothing else. */
  lemma BroadcastIsNews(hosts: map<PeerId, Host>, latest: Latest, c: Cache, p: Packet)
    requires LatestOk(hosts, latest) && CacheOk(hosts, latest, c)
    ensures p in Broadcast(c) <==>
            exists s | s in c.peers ::
              Meet(hosts, c, p.target, s) && p == SyncRoute(p.target, hosts[p.target].addr, News(latest, s))
  {
    if t, s, q :| t in c.peers && s in c.peers && q in c.peers[s].info.peers && Receives(c, t, s, q)
                  && p == SyncRoute(t, c.peers[t].addr, Stamp(c.peers[s].info, q)) {
      assert q == c.peers[s].info.peers[0] && Meet(hosts, c, t, s);
    }
    forall s | s in c.peers && Meet(hosts, c, p.target, s) && p == SyncRoute(p.target, hosts[p.target].addr, News(latest, s))
      ensures p in Broadcast(c)
    {
      assert Receives(c, p.target, s, c.peers[s].info.peers[0]);
    }
  }

  lemma SyncsKeeps(m: Mesh)
    requires MeshOk(m) && Possible(m, Syncs)
    ensures MeshOk(Make(m, Syncs))
  {
    var m' := Make(m, Syncs);
    forall p | p in m'.sent
      ensures MayBeTold(m.hosts, m.latest, p.target, p.info)
    {
      BroadcastIsNews(m.hosts, m.latest, m.cache, p);
    }
    forall t, s | Meet(m'.hosts, m'.cache, t, s)
      ensures NewsOnTheWay(m', t, s)
    {
      assert Meet(m.hosts, m.cache, t, s);
      BroadcastIsNews(m.hosts, m.latest, m.cache, SyncRoute(t, m.hosts[t].addr, News(m.latest, s)));
    }
  }

  lemma ReceiptKeepsLogs(hosts: map<PeerId, Host>, latest: Latest, logs: map<PeerId, seq<PeerInfo>>, t: PeerId, x: PeerInfo)
    requires LogsOk(hosts, latest, logs) && t in logs && MayBeTold(hosts, latest, t, x)
    ensures LogsOk(hosts, latest, logs[t := logs[t] + [x]])
  {
  }

  lemma ReceiptKeepsRouters(logs: map<PeerId, seq<PeerInfo>>, routers: map<PeerId, R.State>, t: PeerId, x: PeerInfo)
    requires RoutersOk(logs, routers) && t in logs
    ensures RoutersOk(logs[t := logs[t] + [x]], routers[t := R.ApplySyncRoute(routers[t], x, t)])
  {
    assert (logs[t] + [x])[..|logs[t]|] == logs[t];
  }

  lemma ReceiptKeepsProgress(m: Mesh, packet: Packet)
    requires ProgressOk(m) && Possible(m, Delivers(packet))
    ensures ProgressOk(Make(m, Delivers(packet)))
  {
    var m' := Make(m, Delivers(packet));
    forall t, s | Meet(m'.hosts, m'.cache, t, s)
      ensures NewsOnTheWay(m', t, s)
    {
      assert NewsOnTheWay(m, t, s) && (t in m.logs ==> m.logs[t] <= m'.logs[t]);
    }
  }

  lemma DeliversKeeps(m: Mesh, packet: Packet)
    requires MeshOk(m) && Possible(m, Delivers(packet))
    ensures MeshOk(Make(m, Delivers(packet)))
  {
    ReceiptKeepsLogs(m.hosts, m.latest, m.logs, packet.target, packet.info);
    ReceiptKeepsRouters(m.logs, m.routers, packet.target, packet.info);
    ReceiptKeepsProgress(m, packet);
  }

  lemma {:induction false} HistoryKeeps(run: seq<Mesh>, i: nat)
    requires IsHistory(run) && i < |run|
    ensures MeshOk(run[i])
    decreases i
  {
    if i != 0 {
      HistoryKeeps(run, i - 1);
      var m := run[i - 1];
      assert Moves(m, run[i]);
      var e :| Possible(m, e) && run[i] == Make(m, e);
      match e {
        case Reports(id, info) => ReportsKeep(m, id, info);
        case Passes(_) => AgeingKeeps(m, e);
        case Evicts(_) => AgeingKeeps(m, e);
        case Buries => BuriesKeeps(m);
        case Syncs => SyncsKeeps(m);
        case Delivers(packet) => DeliversKeeps(m, packet);
      }
    }
  }

  // ---- the results -----------------------------------------------------------------------------------------

  ghost predicate Settled(m: Mesh) {
    !m.cache.triggered && m.pending == {} && m.buried == |m.cache.gone|
  }

  /** The router of `t` holds of `s` what its packets say, in every run and at every moment. */
  lemma RoutersHoldWhatTheyHeard(run: seq<Mesh>, i: nat, t: PeerId, s: PeerId)
    requires IsHistory(run) && i < |run| && t in run[i].logs
    ensures t in run[i].routers && Held(run[i].routers[t], s) == Heard(run[i].logs[t], s)
  {
    HistoryKeeps(run, i);
    var m := run[i];
    forall x | x in m.logs[t]
      ensures Concerns(m.hosts, t, x)
    {
      assert MayBeTold(m.hosts, m.latest, t, x);
    }
    FoldIsHeard(m.hosts, t, m.logs[t]);
  }

  /** What the relay would tell `t` of `s`: the newest report of a live peer of its network, and nothing of another. */
  function ToHear(m: Mesh, t: PeerId, s: PeerId): Option<PeerInfo> {
    if Meet(m.hosts, m.cache, t, s) && s in m.latest && m.latest[s].peers != [] then Some(News(m.latest, s)) else None
  }

  /** The packets that `t` got about `s` came in order: after a tombstone for a live peer its news again, and after a report about another a tombstone. */
  ghost predicate InOrder(m: Mesh, t: PeerId, s: PeerId)
    requires t in m.logs
  {
    match ToHear(m, t, s)
    case Some(news) => !LateTombstone(m.logs[t], s, news)
    case None => !UnburiedReport(m.logs[t], s)
  }

  /**
   Once everything is sent and delivered, the router of a live node holds of a
   peer what the relay would tell it if and only if the packets about that peer
   came in order.
   */
  lemma InLineIffInOrder(run: seq<Mesh>, i: nat, t: PeerId, s: PeerId)
    requires IsHistory(run) && i < |run| && Settled(run[i]) && IsLive(run[i].cache, t)
    ensures var m := run[i];
            && t in m.routers && t in m.logs
            && (Meet(m.hosts, m.cache, t, s) <==> ToHear(m, t, s).Some?)
            && (Meet(m.hosts, m.cache, t, s) ==> s in m.latest && m.cache.peers[s].info == m.latest[s] && m.latest[s].peers != [])
            && (Meet(m.hosts, m.cache, t, s) ==>
                  Conveys(ToHear(m, t, s).value, m.cache.peers[s].info, m.cache.peers[s].info.peers[0]))
            && (Held(m.routers[t], s) == ToHear(m, t, s) <==> InOrder(m, t, s))
  {
    HistoryKeeps(run, i);
    var m := run[i];
    RoutersHoldWhatTheyHeard(run, i, t, s);
    if Meet(m.hosts, m.cache, t, s) {
      assert NewsOnTheWay(m, t, s);
      NewsIsNewest(m, t, s);
      HeardNews(m.logs[t], News(m.latest, s));
    } else {
      HeardIffUnburied(m.logs[t], s);
    }
  }

  lemma NewsIsNewest(m: Mesh, t: PeerId, s: PeerId)
    requires LatestOk(m.hosts, m.latest) && LogsOk(m.hosts, m.latest, m.logs) && t in m.logs && s in m.latest
    ensures IsNewest(m.logs[t], News(m.latest, s)) && News(m.latest, s).peerId == s
  {
    forall x | x in m.logs[t] && x.peerId == s && !x.withdrawn
      ensures x.version <= News(m.latest, s).version && (x.version == News(m.latest, s).version ==> x == News(m.latest, s))
    {
      assert MayBeTold(m.hosts, m.latest, t, x);
    }
  }

  /**
   The order matters in every settled state: one more copy of any tombstone ever
   sent to a live node about a live peer leaves everything settled, and the node
   without that peer.
   */
  lemma LateTombstoneUndoes(run: seq<Mesh>, i: nat, p: Packet)
    requires IsHistory(run) && i < |run| && Settled(run[i])
    requires p in run[i].sent && p.info.withdrawn && Meet(run[i].hosts, run[i].cache, p.target, p.info.peerId)
    ensures Possible(run[i], Delivers(p))
    ensures var m := Make(run[i], Delivers(p));
            IsHistory(run[..i + 1] + [m]) && Settled(m) && Held(m.routers[p.target], p.info.peerId) == None
  {
    HistoryKeeps(run, i);
    OneMore(run, i, p);
  }

  /** And one more copy of any report ever sent brings back a peer that is gone. */
  lemma LateReportRevives(run: seq<Mesh>, i: nat, p: Packet)
    requires IsHistory(run) && i < |run| && Settled(run[i])
    requires p in run[i].sent && !p.info.withdrawn && !IsLive(run[i].cache, p.info.peerId)
    ensures Possible(run[i], Delivers(p))
    ensures var m := Make(run[i], Delivers(p));
            IsHistory(run[..i + 1] + [m]) && Settled(m) && Held(m.routers[p.target], p.info.peerId).Some?
  {
    HistoryKeeps(run, i);
    OneMore(run, i, p);
  }

  lemma OneMore(run: seq<Mesh>, i: nat, p: Packet)
    requires IsHistory(run) && i < |run| && MeshOk(run[i]) && p in run[i].sent
    ensures Possible(run[i], Delivers(p)) && IsHistory(run[..i + 1] + [Make(run[i], Delivers(p))])
    ensures var m, m' := run[i], Make(run[i], Delivers(p));
            && m'.pending == m.pending - {p}
            && Held(m'.routers[p.target], p.info.peerId) == Heard(m.logs[p.target] + [p.info], p.info.peerId)
  {
    var m := run[i];
    assert MayBeTold(m.hosts, m.latest, p.target, p.info);
    assert Possible(m, Delivers(p));
    var m' := Make(m, Delivers(p));
    var longer := run[..i + 1] + [m'];
    forall j: nat | 0 < j < |longer|
      ensures Moves(longer[j - 1], longer[j])
    {
      if j <= i {
        assert longer[j - 1] == run[j - 1] && longer[j] == run[j];
      }
    }
    RoutersHoldWhatTheyHeard(longer, i + 1, p.target, p.info.peerId);
  }

  // ---- what gets done ----------------------------------------------------------------------------------------

  /** Burying a peer sends its tombstone to every other live member of its network. */
  lemma EveryMemberIsTold(m: Mesh, t: PeerId)
    requires MeshOk(m) && Possible(m, Buries)
    requires var dead := m.cache.gone[m.buried];
             IsLive(m.cache, t) && t != dead.peerId && m.cache.peers[t].network == dead.network
    ensures exists p | p in Make(m, Buries).pending ::
              p.target == t && p.info.withdrawn && p.info.peerId == m.cache.gone[m.buried].peerId
  {
    var dead := m.cache.gone[m.buried];
    assert dead in m.cache.gone;
    var x := dead.info.peers[0].(version := dead.info.version, withdrawn := true);
    assert SyncRoute(t, m.cache.peers[t].addr, x) in Burials(m.cache, dead);
  }

  lemma MoveOn(run: seq<Mesh>, e: Move) returns (longer: seq<Mesh>)
    requires IsHistory(run) && Possible(run[|run| - 1], e)
    ensures IsHistory(longer) && longer == run + [Make(run[|run| - 1], e)]
  {
    longer := run + [Make(run[|run| - 1], e)];
    forall j: nat | 0 < j < |longer|
      ensures Moves(longer[j - 1], longer[j])
    {
      assert longer[j - 1] == run[j - 1];
      assert j < |run| ==> longer[j] == run[j];
    }
  }

  /** What is left to do: tombstones to broadcast, a broadcast that is due, and packets to deliver. */
  function Unburied(m: Mesh): nat {
    if m.buried < |m.cache.gone| then |m.cache.gone| - m.buried else 0
  }

  function Due(m: Mesh): nat {
    if m.cache.triggered then 1 else 0
  }

  ghost predicate HasLess(m: Mesh, m': Mesh) {
    || Unburied(m') < Unburied(m)
    || (Unburied(m') == Unburied(m) && Due(m') < Due(m))
    || (Unburied(m') == Unburied(m) && Due(m') == Due(m) && |m'.pending| < |m.pending|)
  }

  lemma SettlingMove(m: Mesh) returns (e: Move)
    requires MeshOk(m) && !Settled(m)
    ensures Possible(m, e) && HasLess(m, Make(m, e))
  {
    if m.buried < |m.cache.gone| {
      e := Buries;
    } else if m.cache.triggered {
      e := Syncs;
    } else {
      var p :| p in m.pending;
      assert MayBeTold(m.hosts, m.latest, p.target, p.info);
      e := Delivers(p);
      assert Make(m, e).pending == m.pending - {p};
    }
  }

  /** Every history can be continued until all is settled. */
  lemma {:induction false} CanSettle(run: seq<Mesh>) returns (longer: seq<Mesh>)
    requires IsHistory(run)
    ensures IsHistory(longer) && run <= longer && Settled(longer[|longer| - 1])
    decreases Unburied(run[|run| - 1]), Due(run[|run| - 1]), |run[|run| - 1].pending|
  {
    longer := run;
    HistoryKeeps(run, |run| - 1);
    if !Settled(run[|run| - 1]) {
      var e := SettlingMove(run[|run| - 1]);
      var next := MoveOn(run, e);
      longer := CanSettle(next);
    }
  }
}
