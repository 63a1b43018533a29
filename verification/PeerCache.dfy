/**
 The peers the relay believes alive: a timed cache by id, an index back from
 transport addresses, and the record of every disappearance.
 */
module PeerCache {
  import opened Wrappers
  import opened Cidrs
  import opened HostInfos

  /** An entry and when it was inserted; `ttl` later it is expired. */
  datatype Stored = Stored(addr: SocketAddr, info: HostInfo, network: NetworkId, at: nat)

  datatype Indexed = Indexed(peerId: PeerId, at: nat)

  datatype Gone = Gone(peerId: PeerId, info: HostInfo, network: NetworkId)

  /** What happened to the cache, in order: insertions and tombstones. The tombstones alone go to the broadcaster. */
  datatype Entry = Inserted(peerId: PeerId) | Tombstone(gone: Gone)

  type AddrKey = (SocketAddr, NetworkId)

  datatype Cache = Cache(
    ttl: nat,
    now: nat,
    peers: map<PeerId, Stored>,
    byAddr: map<AddrKey, Indexed>,
    log: seq<Entry>,
    gone: seq<Gone>,
    triggered: bool)

  // ---- reads ---------------------------------------------------------------------------------

  predicate IsLive(c: Cache, id: PeerId) {
    id in c.peers && c.now < c.peers[id].at + c.ttl
  }

  function Get(c: Cache, id: PeerId): Option<Stored> {
    if IsLive(c, id) then Some(c.peers[id]) else None
  }

  /** What the index says, unless the peer it names is not live, or not at that address. */
  function PeerIdByAddr(c: Cache, addr: SocketAddr, network: NetworkId): Option<PeerId> {
    var key := (addr, network);
    if key !in c.byAddr || c.now >= c.byAddr[key].at + c.ttl then None
    else
      var id := c.byAddr[key].peerId;
      match Get(c, id)
      case None => None
      case Some(p) => if p.addr == addr && p.network == network then Some(id) else None
  }

  // ---- writes ---------------------------------------------------------------------------------

  function TombstoneOf(c: Cache, id: PeerId): Gone
    requires id in c.peers
  {
    Gone(id, c.peers[id].info, c.peers[id].network)
  }

  /** Take a present entry out; its disappearance is notified. */
  function Drop(c: Cache, id: PeerId): Cache {
    if id !in c.peers then c
    else
      var g := TombstoneOf(c, id);
      c.(peers := c.peers - {id}, log := c.log + [Tombstone(g)], gone := c.gone + [g])
  }

  /** Insert into both caches; overwriting an expired entry notifies its expiry first. */
  function Put(c: Cache, id: PeerId, addr: SocketAddr, info: HostInfo, network: NetworkId): Cache {
    var c := if IsLive(c, id) then c else Drop(c, id);
    c.(peers := c.peers[id := Stored(addr, info, network, c.now)],
       byAddr := c.byAddr[(addr, network) := Indexed(id, c.now)],
       log := c.log + [Inserted(id)])
  }

  /** A live peer's report that is not newer only renews the old entry; any other is stored, and news triggers a broadcast. */
  function Heartbeat(c: Cache, id: PeerId, info: HostInfo, addr: SocketAddr, network: NetworkId): Cache {
    match Get(c, id)
    case Some(p) =>
      if info.version <= p.info.version then Put(c, id, p.addr, p.info, p.network)
      else
        var changed := p.addr != addr || p.info != info || p.network != network;
        Put(c, id, addr, info, network).(triggered := c.triggered || changed)
    case None => Put(c, id, addr, info, network).(triggered := true)
  }

  function Remove(c: Cache, id: PeerId): Cache {
    match Get(c, id)
    case Some(p) => Drop(c.(byAddr := c.byAddr - {(p.addr, p.network)}), id)
    case None => Drop(c, id)
  }

  /** The cache evicts an entry only once it is expired; a sweep evicts all such entries. */
  function Evict(c: Cache, id: PeerId): Cache {
    if IsLive(c, id) then c else Drop(c, id)
  }

  datatype Event =
    | Beat(id: PeerId, info: HostInfo, addr: SocketAddr, network: NetworkId)
    | Removal(id: PeerId)
    | Eviction(id: PeerId)
    | Tick(ms: nat)

  function After(c: Cache, e: Event): Cache {
    match e
    case Beat(id, info, addr, network) => Heartbeat(c, id, info, addr, network)
    case Removal(id) => Remove(c, id)
    case Eviction(id) => Evict(c, id)
    case Tick(ms) => c.(now := c.now + ms)
  }

  function AfterAll(c: Cache, events: seq<Event>): Cache
    decreases events
  {
    if events == [] then c else AfterAll(After(c, events[0]), events[1..])
  }

  lemma {:induction false} AfterAllAppend(c: Cache, events: seq<Event>, e: Event)
    ensures AfterAll(c, events + [e]) == After(AfterAll(c, events), e)
    decreases events
  {
    if events == [] {
      assert ([] + [e])[1..] == [];
    } else {
      AfterAllAppend(After(c, events[0]), events[1..], e);
      assert (events + [e])[1..] == events[1..] + [e];
    }
  }

  // ---- the relay's own copy -----------------------------------------------------------------------

  class PeerManager {
    const ttl: nat
    var now: nat
    var peers: map<PeerId, Stored>
    var byAddr: map<AddrKey, Indexed>
    /** The tombstones handed to the broadcaster, in order. */
    var gone: seq<Gone>
    var triggered: bool
    /** The value of the whole cache, with its history, kept in step by every method. */
    ghost var value: Cache

    ghost predicate Valid()
      reads this
    {
      && value.ttl == ttl && value.now == now && value.peers == peers && value.byAddr == byAddr
      && value.triggered == triggered && value.gone == gone
    }

    constructor (ttl: nat)
      ensures Valid() && value == Cache(ttl, 0, map[], map[], [], [], false)
    {
      this.ttl := ttl;
      now, peers, byAddr, gone, triggered, value := 0, map[], map[], [], false, Cache(ttl, 0, map[], map[], [], [], false);
    }

    method DropEntry(id: PeerId)
      requires Valid()
      modifies this`peers, this`gone, this`value
      ensures Valid() && value == Drop(old(value), id)
    {
      if id in peers {
        gone := gone + [Gone(id, peers[id].info, peers[id].network)];
        peers := peers - {id};
        value := Drop(value, id);
      }
    }

    method PutEntry(id: PeerId, addr: SocketAddr, info: HostInfo, network: NetworkId)
      requires Valid()
      modifies this`peers, this`byAddr, this`gone, this`value
      ensures Valid() && value == Put(old(value), id, addr, info, network)
    {
      if !(id in peers && now < peers[id].at + ttl) {
        DropEntry(id);
      }
      peers := peers[id := Stored(addr, info, network, now)];
      byAddr := byAddr[(addr, network) := Indexed(id, now)];
      value := Put(old(value), id, addr, info, network);
    }

    method RunHeartbeat(id: PeerId, info: HostInfo, addr: SocketAddr, network: NetworkId)
      requires Valid()
      modifies this
      ensures Valid() && value == Heartbeat(old(value), id, info, addr, network)
    {
      var changed := true;
      if id in peers && now < peers[id].at + ttl {
        var prev := peers[id];
        if info.version <= prev.info.version {
          PutEntry(id, prev.addr, prev.info, prev.network);
          return;
        }
        changed := prev.addr != addr || prev.info != info || prev.network != network;
      }
      PutEntry(id, addr, info, network);
      if changed {
        triggered := true;
      }
      value := Heartbeat(old(value), id, info, addr, network);
    }

    method RunRemove(id: PeerId)
      requires Valid()
      modifies this
      ensures Valid() && value == Remove(old(value), id)
    {
      if id in peers && now < peers[id].at + ttl {
        var key := (peers[id].addr, peers[id].network);
        byAddr := byAddr - {key};
        value := value.(byAddr := value.byAddr - {key});
      }
      DropEntry(id);
    }

    method EvictIfExpired(id: PeerId)
      requires Valid()
      modifies this`peers, this`gone, this`value
      ensures Valid() && value == Evict(old(value), id)
      ensures |gone| - |old(gone)| == |old(peers)| - |peers|
    {
      if id in peers && !(now < peers[id].at + ttl) {
        DropEntry(id);
        assert old(peers).Keys == peers.Keys + {id};
      }
    }

    /** Evict every expired entry, in the cache's own order: one tombstone each. */
    method Sweep() returns (ghost evictions: seq<Event>)
      requires Valid()
      modifies this`peers, this`gone, this`value
      ensures Valid() && value == AfterAll(old(value), evictions)
      ensures forall e | e in evictions :: e.Eviction?
      ensures forall id :: id in peers <==> IsLive(old(value), id)
      ensures |gone| - |old(gone)| == |old(peers)| - |peers|
    {
      evictions := [];
      var rest := peers.Keys;
      while rest != {}
        invariant Valid() && value == AfterAll(old(value), evictions)
        invariant forall e | e in evictions :: e.Eviction?
        invariant Swept(old(value), value, rest)
        invariant |gone| - |old(gone)| == |old(peers)| - |peers|
        decreases rest
      {
        var id :| id in rest;
        AfterAllAppend(old(value), evictions, Eviction(id));
        evictions := evictions + [Eviction(id)];
        SweptOne(old(value), value, rest, id);
        rest := rest - {id};
        EvictIfExpired(id);
      }
    }

    method Resolve(addr: SocketAddr, network: NetworkId) returns (r: Option<PeerId>)
      requires Valid()
      ensures r == PeerIdByAddr(value, addr, network)
    {
      r := None;
      var key := (addr, network);
      if key in byAddr && now < byAddr[key].at + ttl {
        var id := byAddr[key].peerId;
        if id in peers && now < peers[id].at + ttl && peers[id].addr == addr && peers[id].network == network {
          r := Some(id);
        }
      }
    }
  }

  /** A sweep of `start` that has yet to look at `rest`. */
  ghost predicate Swept(start: Cache, c: Cache, rest: set<PeerId>) {
    && c.now == start.now && c.ttl == start.ttl
    && rest <= c.peers.Keys <= start.peers.Keys
    && (forall id | id in c.peers :: c.peers[id] == start.peers[id] && (id in rest || IsLive(start, id)))
    && (forall id | IsLive(start, id) :: id in c.peers)
  }

  lemma SweptOne(start: Cache, c: Cache, rest: set<PeerId>, id: PeerId)
    requires Swept(start, c, rest) && id in rest
    ensures Swept(start, Evict(c, id), rest - {id})
  {
  }

  // ---- versions ---------------------------------------------------------------------------------------

  /**
   A heartbeat stores the report as it came, address and network included, unless
   the peer is live with one that is as new; that one is then renewed where it is.
   The index leads from the stored address to the peer, and a broadcast is asked
   for exactly when the report was stored.
   */
  lemma HeartbeatMeaning(c: Cache, id: PeerId, info: HostInfo, addr: SocketAddr, network: NetworkId)
    ensures var c' := Heartbeat(c, id, info, addr, network);
            var renewed := IsLive(c, id) && info.version <= c.peers[id].info.version;
            && c'.peers == c.peers[id := if renewed then c.peers[id].(at := c.now) else Stored(addr, info, network, c.now)]
            && c'.byAddr == c.byAddr[(c'.peers[id].addr, c'.peers[id].network) := Indexed(id, c.now)]
            && c'.triggered == (c.triggered || !renewed)
            && c'.ttl == c.ttl && c'.now == c.now
            && c'.gone == c.gone + (if id in c.peers && !IsLive(c, id) then [TombstoneOf(c, id)] else [])
            && c'.log == c.log + (if id in c.peers && !IsLive(c, id) then [Tombstone(TombstoneOf(c, id))] else []) + [Inserted(id)]
  {
  }

  /** An explicit removal buries the peer, if there is one, and clears the index where a live one was found; eviction touches only what is expired. */
  lemma RemovalMeaning(c: Cache, id: PeerId)
    ensures var c' := Remove(c, id);
            && c'.peers == c.peers - {id}
            && c'.gone == c.gone + (if id in c.peers then [TombstoneOf(c, id)] else [])
            && c'.byAddr == (if IsLive(c, id) then c.byAddr - {(c.peers[id].addr, c.peers[id].network)} else c.byAddr)
    ensures var c' := Evict(c, id);
            if IsLive(c, id) then c' == c
            else c'.peers == c.peers - {id} && c'.byAddr == c.byAddr
                 && c'.gone == c.gone + if id in c.peers then [TombstoneOf(c, id)] else []
  {
  }

  /** While a peer stays live its stored version does not fall, and an equal version is the same report. */
  lemma LiveVersionsRise(c: Cache, e: Event, id: PeerId)
    requires IsLive(c, id) && IsLive(After(c, e), id)
    ensures var before, after := c.peers[id], After(c, e).peers[id];
            && after.info.version >= before.info.version
            && (after.info.version == before.info.version ==>
                  after.info == before.info && after.addr == before.addr && after.network == before.network)
  {
  }

  /** `id` is live before, between and after all events. */
  predicate StaysLive(c: Cache, events: seq<Event>, id: PeerId)
    decreases events
  {
    IsLive(c, id) && (events != [] ==> StaysLive(After(c, events[0]), events[1..], id))
  }

  lemma {:induction false} VersionNeverFalls(c: Cache, events: seq<Event>, id: PeerId)
    requires StaysLive(c, events, id)
    ensures IsLive(AfterAll(c, events), id)
    ensures AfterAll(c, events).peers[id].info.version >= c.peers[id].info.version
    decreases events
  {
    if events != [] {
      LiveVersionsRise(c, events[0], id);
      VersionNeverFalls(After(c, events[0]), events[1..], id);
    }
  }

  // ---- liveness ---------------------------------------------------------------------------------------

  /** From `since` after its last heartbeat on, `id` is never silent for a whole TTL, and nobody removes it. */
  predicate BeatsInTime(events: seq<Event>, id: PeerId, ttl: nat, since: nat)
    decreases events
  {
    since < ttl &&
    (events != [] ==>
       match events[0]
       case Beat(b, _, _, _) => BeatsInTime(events[1..], id, ttl, if b == id then 0 else since)
       case Removal(b) => b != id && BeatsInTime(events[1..], id, ttl, since)
       case Eviction(_) => BeatsInTime(events[1..], id, ttl, since)
       case Tick(ms) => BeatsInTime(events[1..], id, ttl, since + ms))
  }

  /** The log only grew, without a tombstone for `id`. */
  ghost predicate GrewWithoutTombstone(before: seq<Entry>, after: seq<Entry>, id: PeerId) {
    && before <= after
    && forall k | |before| <= k < |after| :: !(after[k].Tombstone? && after[k].gone.peerId == id)
  }

  lemma StepWithoutTombstone(c: Cache, e: Event, id: PeerId)
    requires IsLive(c, id) && e != Removal(id)
    ensures GrewWithoutTombstone(c.log, After(c, e).log, id)
  {
  }

  /** Heartbeats closer than the TTL, stale ones included, never lead to a tombstone. */
  lemma {:induction false} BeatingPeersAreNotTombstoned(c: Cache, events: seq<Event>, id: PeerId)
    requires id in c.peers && c.peers[id].at <= c.now
    requires BeatsInTime(events, id, c.ttl, c.now - c.peers[id].at)
    ensures IsLive(AfterAll(c, events), id)
    ensures GrewWithoutTombstone(c.log, AfterAll(c, events).log, id)
    decreases events
  {
    if events != [] {
      StepWithoutTombstone(c, events[0], id);
      BeatingPeersAreNotTombstoned(After(c, events[0]), events[1..], id);
    }
  }

  // ---- tombstones alternate with insertions ---------------------------------------------------------------

  function Tombstones(log: seq<Entry>): seq<Gone> {
    if log == [] then []
    else
      var last := log[|log| - 1];
      Tombstones(log[..|log| - 1]) + if last.Tombstone? then [last.gone] else []
  }

  lemma TombstonesExtend(log: seq<Entry>, e: Entry)
    ensures Tombstones(log + [e]) == Tombstones(log) + if e.Tombstone? then [e.gone] else []
  {
  }

  /** Whether the last thing the log says about `id` is an insertion. */
  predicate Held(log: seq<Entry>, id: PeerId) {
    log != [] &&
    match log[|log| - 1]
    case Inserted(b) => b == id || Held(log[..|log| - 1], id)
    case Tombstone(g) => g.peerId != id && Held(log[..|log| - 1], id)
  }

  /** The broadcaster gets exactly the tombstones; present entries are the held ones; a tombstone is only written for a held id. */
  ghost predicate LogInv(c: Cache) {
    && c.gone == Tombstones(c.log)
    && (forall id :: id in c.peers <==> Held(c.log, id))
    && forall k: nat | k < |c.log| :: c.log[k].Tombstone? ==> Held(c.log[..k], c.log[k].gone.peerId)
  }

  lemma LogExtends(c: Cache, c': Cache, e: Entry)
    requires LogInv(c) && c'.log == c.log + [e]
    requires e.Tombstone? ==> e.gone.peerId in c.peers
    requires c'.gone == c.gone + if e.Tombstone? then [e.gone] else []
    requires c'.peers.Keys == if e.Inserted? then c.peers.Keys + {e.peerId} else c.peers.Keys - {e.gone.peerId}
    ensures LogInv(c')
  {
    TombstonesExtend(c.log, e);
    assert c'.log[..|c.log|] == c.log;
    forall k: nat | k < |c'.log|
      ensures c'.log[k].Tombstone? ==> Held(c'.log[..k], c'.log[k].gone.peerId)
    {
      assert c'.log[..k] == c.log[..k];
    }
    forall id
      ensures id in c'.peers <==> Held(c'.log, id)
    {
      assert id in c.peers <==> Held(c.log, id);
      assert id in c'.peers <==> id in c'.peers.Keys;
    }
  }

  lemma DropKeepsLog(c: Cache, id: PeerId)
    requires LogInv(c)
    ensures LogInv(Drop(c, id))
  {
    if id in c.peers {
      LogExtends(c, Drop(c, id), Tombstone(TombstoneOf(c, id)));
    }
  }

  lemma PutKeepsLog(c: Cache, id: PeerId, addr: SocketAddr, info: HostInfo, network: NetworkId)
    requires LogInv(c)
    ensures LogInv(Put(c, id, addr, info, network))
  {
    var d := if IsLive(c, id) then c else Drop(c, id);
    DropKeepsLog(c, id);
    LogExtends(d, Put(c, id, addr, info, network), Inserted(id));
  }

  lemma BeatKeepsLog(c: Cache, id: PeerId, info: HostInfo, addr: SocketAddr, network: NetworkId)
    requires LogInv(c)
    ensures LogInv(Heartbeat(c, id, info, addr, network))
  {
    match Get(c, id)
    case Some(p) =>
      if info.version <= p.info.version {
        PutKeepsLog(c, id, p.addr, p.info, p.network);
      } else {
        PutKeepsLog(c, id, addr, info, network);
        SameLog(Put(c, id, addr, info, network), Heartbeat(c, id, info, addr, network));
      }
    case None =>
      PutKeepsLog(c, id, addr, info, network);
      SameLog(Put(c, id, addr, info, network), Heartbeat(c, id, info, addr, network));
  }

  lemma SameLog(c: Cache, c': Cache)
    requires LogInv(c) && c.peers == c'.peers && c.log == c'.log && c.gone == c'.gone
    ensures LogInv(c')
  {
  }

  lemma StepKeepsLog(c: Cache, e: Event)
    requires LogInv(c)
    ensures LogInv(After(c, e))
  {
    match e
    case Beat(id, info, addr, network) => BeatKeepsLog(c, id, info, addr, network);
    case Removal(id) =>
      var d := match Get(c, id) case Some(p) => c.(byAddr := c.byAddr - {(p.addr, p.network)}) case None => c;
      SameLog(c, d);
      DropKeepsLog(d, id);
    case Eviction(id) => DropKeepsLog(c, id);
    case Tick(ms) => SameLog(c, After(c, e));
  }

  lemma {:induction false} RunKeepsLog(c: Cache, events: seq<Event>)
    requires LogInv(c)
    ensures LogInv(AfterAll(c, events))
    decreases events
  {
    if events != [] {
      StepKeepsLog(c, events[0]);
      RunKeepsLog(After(c, events[0]), events[1..]);
    }
  }

  lemma {:induction false} HeldMeansInserted(log: seq<Entry>, id: PeerId) returns (k: nat)
    requires Held(log, id)
    ensures k < |log| && log[k] == Inserted(id)
    ensures forall l | k < l < |log| :: !(log[l].Tombstone? && log[l].gone.peerId == id)
    decreases |log|
  {
    k := |log| - 1;
    if log[k] != Inserted(id) {
      var last := k;
      k := HeldMeansInserted(log[..last], id);
      assert log[..last][k] == log[k];
      assert forall l | k < l < last :: log[..last][l] == log[l];
    }
  }

  /** Between two tombstones for one id, at any distance and in any run, the id was inserted again. */
  lemma TombstonesNeedAnInsert(c: Cache, events: seq<Event>, i: nat, j: nat) returns (k: nat)
    requires LogInv(c)
    requires var log := AfterAll(c, events).log;
             i < j < |log| && log[i].Tombstone? && log[j].Tombstone? && log[i].gone.peerId == log[j].gone.peerId
    ensures var log := AfterAll(c, events).log;
            i < k < j && log[k] == Inserted(log[j].gone.peerId)
  {
    var log := AfterAll(c, events).log;
    RunKeepsLog(c, events);
    var before := log[..j];
    k := HeldMeansInserted(before, log[j].gone.peerId);
    assert before[i] == log[i] && before[k] == log[k];
  }

  // ---- the reverse index --------------------------------------------------------------------------------------

  /** No two live ids are registered at one address in one network. */
  ghost predicate NoSharing(c: Cache) {
    forall a, b | IsLive(c, a) && IsLive(c, b) && a != b ::
      (c.peers[a].addr, c.peers[a].network) != (c.peers[b].addr, c.peers[b].network)
  }

  predicate IsIndexed(c: Cache, id: PeerId)
    requires id in c.peers
  {
    var key := (c.peers[id].addr, c.peers[id].network);
    && c.peers[id].at <= c.now
    && key in c.byAddr && c.byAddr[key].peerId == id && c.byAddr[key].at >= c.peers[id].at
  }

  /** Every live peer is found under its address. */
  ghost predicate IndexComplete(c: Cache) {
    forall id | IsLive(c, id) :: IsIndexed(c, id)
  }

  /** The specification: some live peer registered there, found by looking at all of them. */
  ghost predicate IsScanResult(c: Cache, addr: SocketAddr, network: NetworkId, r: Option<PeerId>) {
    match r
    case Some(id) => IsLive(c, id) && c.peers[id].addr == addr && c.peers[id].network == network
    case None => forall id | IsLive(c, id) :: (c.peers[id].addr, c.peers[id].network) != (addr, network)
  }

  lemma PutKeepsIndex(c: Cache, id: PeerId, addr: SocketAddr, info: HostInfo, network: NetworkId)
    requires IndexComplete(c) && NoSharing(Put(c, id, addr, info, network))
    ensures IndexComplete(Put(c, id, addr, info, network))
  {
    var c' := Put(c, id, addr, info, network);
    forall other | IsLive(c', other)
      ensures IsIndexed(c', other)
    {
      if other != id {
        assert IsLive(c, other) && IsIndexed(c, other) && c'.peers[other] == c.peers[other];
        assert IsLive(c', id);
      }
    }
  }

  lemma RemoveKeepsIndex(c: Cache, id: PeerId)
    requires IndexComplete(c) && NoSharing(c)
    ensures IndexComplete(Remove(c, id))
  {
    var c' := Remove(c, id);
    forall other | IsLive(c', other)
      ensures IsIndexed(c', other)
    {
      assert other != id && IsLive(c, other) && IsIndexed(c, other);
    }
  }

  lemma StepKeepsIndex(c: Cache, e: Event)
    requires IndexComplete(c) && NoSharing(c) && NoSharing(After(c, e))
    ensures IndexComplete(After(c, e))
  {
    match e
    case Beat(id, info, addr, network) =>
      var p := Get(c, id);
      if p.Some? && info.version <= p.value.info.version {
        PutKeepsIndex(c, id, p.value.addr, p.value.info, p.value.network);
      } else {
        var put := Put(c, id, addr, info, network);
        assert NoSharing(put) by {
          assert forall other :: IsLive(put, other) <==> IsLive(After(c, e), other);
        }
        PutKeepsIndex(c, id, addr, info, network);
        SameEntries(put, After(c, e));
      }
    case Removal(id) => RemoveKeepsIndex(c, id);
    case Eviction(id) => EvictKeepsIndex(c, id);
    case Tick(ms) => TickKeepsIndex(c, ms);
  }

  lemma SameEntries(c: Cache, c': Cache)
    requires IndexComplete(c) && c.peers == c'.peers && c.byAddr == c'.byAddr && c.now == c'.now && c.ttl == c'.ttl
    ensures IndexComplete(c')
  {
    forall id | IsLive(c', id)
      ensures IsIndexed(c', id)
    {
      assert IsLive(c, id) && IsIndexed(c, id);
    }
  }

  lemma EvictKeepsIndex(c: Cache, id: PeerId)
    requires IndexComplete(c)
    ensures IndexComplete(Evict(c, id))
  {
    forall other | IsLive(Evict(c, id), other)
      ensures IsIndexed(Evict(c, id), other)
    {
      assert IsLive(c, other) && IsIndexed(c, other);
    }
  }

  lemma TickKeepsIndex(c: Cache, ms: nat)
    requires IndexComplete(c)
    ensures IndexComplete(After(c, Tick(ms)))
  {
    forall other | IsLive(After(c, Tick(ms)), other)
      ensures IsIndexed(After(c, Tick(ms)), other)
    {
      assert IsLive(c, other) && IsIndexed(c, other);
    }
  }

  /** `NoSharing` before, between and after all events. */
  ghost predicate SharesNowhere(c: Cache, events: seq<Event>)
    decreases events
  {
    NoSharing(c) && (events != [] ==> SharesNowhere(After(c, events[0]), events[1..]))
  }

  lemma {:induction false} RunKeepsIndexComplete(c: Cache, events: seq<Event>)
    requires IndexComplete(c) && SharesNowhere(c, events)
    ensures IndexComplete(AfterAll(c, events)) && NoSharing(AfterAll(c, events))
    decreases events
  {
    if events != [] {
      StepKeepsIndex(c, events[0]);
      RunKeepsIndexComplete(After(c, events[0]), events[1..]);
    }
  }

  /** In any run in which no two live ids share an address and network, the index answers as the scan of all live peers. */
  lemma IndexIsScan(c: Cache, events: seq<Event>, addr: SocketAddr, network: NetworkId)
    requires IndexComplete(c) && SharesNowhere(c, events)
    ensures var c' := AfterAll(c, events);
            && IsScanResult(c', addr, network, PeerIdByAddr(c', addr, network))
            && forall r | IsScanResult(c', addr, network, r) :: r == PeerIdByAddr(c', addr, network)
  {
    RunKeepsIndexComplete(c, events);
    var c' := AfterAll(c, events);
    assert forall id | IsLive(c', id) :: IsIndexed(c', id);
  }
}
