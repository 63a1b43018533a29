/**
 A remote peer as this node runs it: what was broadcast about it, a tunnel
 session for every candidate address, the path chosen and the codec in use.
 */
module Peers {
  import opened Wrappers
  import opened Cidrs
  import opened HostInfos
  import opened UdpSession
  import opened PathSelection

  /** The data-plane codec; its keys are derived from both ids and the network. */
  class Codec {
    const localId: PeerId
    const remoteId: PeerId
    const network: NetworkId

    constructor (localId: PeerId, info: PeerInfo)
      ensures KeyedFor(localId, info)
    {
      this.localId, this.remoteId, this.network := localId, info.peerId, info.network;
    }

    predicate KeyedFor(localId: PeerId, info: PeerInfo) {
      this.localId == localId && this.remoteId == info.peerId && this.network == info.network
    }
  }

  datatype PeerSession = PeerSession(addr: SocketAddr, session: UdpTunnelSession)

  predicate Distinct(sessions: seq<PeerSession>) {
    forall i, j | 0 <= i < j < |sessions| :: sessions[i].addr != sessions[j].addr
  }

  function Addrs(sessions: seq<PeerSession>): set<SocketAddr> {
    set s | s in sessions :: s.addr
  }

  /** The sessions whose address is still a candidate, in order. */
  function Retain(sessions: seq<PeerSession>, candidates: seq<SocketAddr>): (r: seq<PeerSession>)
    ensures forall s | s in r :: s in sessions && s.addr in candidates
    ensures forall s | s in sessions && s.addr in candidates :: s in r
    ensures Distinct(sessions) ==> Distinct(r)
  {
    if sessions == [] then []
    else if sessions[0].addr in candidates then [sessions[0]] + Retain(sessions[1..], candidates)
    else Retain(sessions[1..], candidates)
  }

  /** The first occurrence of each address. */
  function FirstOccurrences(addrs: seq<SocketAddr>): (r: seq<SocketAddr>)
    ensures forall a :: a in r <==> a in addrs
    ensures forall i, j | 0 <= i < j < |r| :: r[i] != r[j]
  {
    if addrs == [] then []
    else
      var last := |addrs| - 1;
      var before := FirstOccurrences(addrs[..last]);
      assert addrs == addrs[..last] + [addrs[last]];
      if addrs[last] in before then before else before + [addrs[last]]
  }

  /** The reported LAN addresses, then the public one unless the NAT is symmetric. */
  function Reported(info: PeerInfo): seq<SocketAddr> {
    info.localAddrs + if info.natType != Symmetric && info.natAddr.Some? then [info.natAddr.value] else []
  }

  method CandidateAddrs(info: PeerInfo) returns (candidates: seq<SocketAddr>)
    ensures candidates == FirstOccurrences(Reported(info))
  {
    var addrs := Reported(info);
    candidates := [];
    for i := 0 to |addrs|
      invariant candidates == FirstOccurrences(addrs[..i])
    {
      assert addrs[..i + 1][..i] == addrs[..i];
      if addrs[i] !in candidates {
        candidates := candidates + [addrs[i]];
      }
    }
    assert addrs[..|addrs|] == addrs;
  }

  /**
   What reconciling `before` against the candidates must leave behind: exactly
   one session per candidate and no other, none of them timed out; when not
   forced, every live session on a candidate survives as the same object, and
   when forced none does.
   */
  ghost predicate Reconciled(before: seq<PeerSession>, after: seq<PeerSession>, candidates: seq<SocketAddr>, force: bool)
    reads set s | s in before + after :: s.session
  {
    && Distinct(after)
    && (forall a :: a in Addrs(after) <==> a in candidates)
    && (forall s | s in after :: s.session.state != Timeout)
    && (force ==> forall s | s in before :: s !in after)
    && (!force ==> forall s | s in before && s.addr in candidates && s.session.state != Timeout :: s in after)
  }

  /** The paths whose session is connected, in session order. */
  function ConnectedPaths(sessions: seq<PeerSession>): (r: seq<Path>)
    reads set s | s in sessions :: s.session
  {
    if sessions == [] then []
    else if sessions[0].session.state == Connected then
      [Path(sessions[0].addr, sessions[0].session.rtt)] + ConnectedPaths(sessions[1..])
    else ConnectedPaths(sessions[1..])
  }

  predicate IsConnected(s: PeerSession)
    reads s.session
  {
    s.session.state == Connected
  }

  predicate IsFaster(s: PeerSession, t: PeerSession)
    reads s.session, t.session
  {
    s.session.rtt.Some? && (t.session.rtt.Some? ==> s.session.rtt.value < t.session.rtt.value)
  }

  /** A connected session that no connected one is faster than, and the first such. */
  ghost predicate IsFirstFastestSession(sessions: seq<PeerSession>, i: int)
    reads set s | s in sessions :: s.session
  {
    && 0 <= i < |sessions| && IsConnected(sessions[i])
    && (forall j | 0 <= j < |sessions| && IsConnected(sessions[j]) :: !IsFaster(sessions[j], sessions[i]))
    && (forall j | 0 <= j < i && IsConnected(sessions[j]) :: IsFaster(sessions[i], sessions[j]))
  }

  /** Some connected session is measured where `cur` is not, or more than 20% faster. */
  ghost predicate IsOutdone(sessions: seq<PeerSession>, cur: PeerSession)
    reads cur.session, set s | s in sessions :: s.session
  {
    exists s | s in sessions :: IsConnected(s) && s.session.rtt.Some?
      && (cur.session.rtt.Some? ==> 5 * s.session.rtt.value < 4 * cur.session.rtt.value)
  }

  /**
   What is selected after `before`: nothing iff no session is connected; the same
   again if its session is connected and not outdone; otherwise the first fastest.
   */
  ghost predicate Selects(sessions: seq<PeerSession>, before: Option<SocketAddr>, after: Option<SocketAddr>)
    reads set s | s in sessions :: s.session
  {
    && (after.None? <==> forall s | s in sessions :: !IsConnected(s))
    && (forall cur | cur in sessions && IsConnected(cur) && before == Some(cur.addr) ::
          after != before <==> IsOutdone(sessions, cur))
    && (after.Some? && (after != before || forall s | s in sessions && IsConnected(s) :: before != Some(s.addr)) ==>
          exists i: nat :: IsFirstFastestSession(sessions, i) && after == Some(sessions[i].addr))
  }

  /** The path of a session. */
  function PathOf(s: PeerSession): Path
    reads s.session
  {
    Path(s.addr, s.session.rtt)
  }

  /** The paths are those of the connected sessions, and no others. */
  lemma {:induction false} ConnectedPathsMeaning(sessions: seq<PeerSession>)
    ensures forall s | s in sessions && IsConnected(s) :: PathOf(s) in ConnectedPaths(sessions)
    ensures forall p | p in ConnectedPaths(sessions) :: exists s | s in sessions :: IsConnected(s) && PathOf(s) == p
    ensures Distinct(sessions) ==> DistinctAddrs(ConnectedPaths(sessions))
  {
    if sessions != [] {
      var rest := ConnectedPaths(sessions[1..]);
      ConnectedPathsMeaning(sessions[1..]);
      forall p | p in ConnectedPaths(sessions)
        ensures exists s | s in sessions :: IsConnected(s) && PathOf(s) == p
      {
        if p in rest {
          var s :| s in sessions[1..] && IsConnected(s) && PathOf(s) == p;
          assert s in sessions;
        } else {
          assert PathOf(sessions[0]) == p;
        }
      }
      if Distinct(sessions) && IsConnected(sessions[0]) {
        forall i | 0 <= i < |rest|
          ensures rest[i].addr != sessions[0].addr
        {
          assert rest[i] in rest;
          var s :| s in sessions[1..] && IsConnected(s) && PathOf(s) == rest[i];
        }
      }
    }
  }

  /** The first fastest of the paths belongs to the first fastest connected session. */
  lemma {:induction false} FirstFastestSession(sessions: seq<PeerSession>) returns (i: nat)
    requires ConnectedPaths(sessions) != []
    ensures IsFirstFastestSession(sessions, i) && Best(ConnectedPaths(sessions)) == Some(PathOf(sessions[i]))
  {
    ConnectedPathsMeaning(sessions);
    i := 0;
    var tail := sessions[1..];
    assert forall j | 0 < j < |sessions| :: sessions[j] == tail[j - 1];
    if ConnectedPaths(tail) != [] {
      var k := FirstFastestSession(tail);
      if !IsConnected(sessions[0]) || Faster(PathOf(tail[k]), PathOf(sessions[0])) {
        i := k + 1;
      }
    } else {
      ConnectedPathsMeaning(tail);
    }
  }

  lemma SelectsByPaths(sessions: seq<PeerSession>, before: Option<SocketAddr>)
    requires Distinct(sessions)
    ensures Selects(sessions, before, SelectNext(ConnectedPaths(sessions), before))
  {
    var paths := ConnectedPaths(sessions);
    var after := SelectNext(paths, before);
    ConnectedPathsMeaning(sessions);
    SelectMeaning(paths, before);
    forall cur | cur in sessions && IsConnected(cur) && before == Some(cur.addr)
      ensures IsDisplaced(paths, PathOf(cur)) <==> IsOutdone(sessions, cur)
    {
      OutdoneIsDisplaced(sessions, cur);
    }
    if paths != [] {
      var i := FirstFastestSession(sessions);
      forall k: nat | IsFirstFastest(paths, k)
        ensures paths[k] == PathOf(sessions[i])
      {
        var b := BestIsFirstFastest(paths);
        assert b == k;
      }
    }
  }

  lemma OutdoneIsDisplaced(sessions: seq<PeerSession>, cur: PeerSession)
    requires Distinct(sessions) && cur in sessions && IsConnected(cur)
    ensures IsDisplaced(ConnectedPaths(sessions), PathOf(cur)) <==> IsOutdone(sessions, cur)
  {
    var paths := ConnectedPaths(sessions);
    ConnectedPathsMeaning(sessions);
    SameAddress(sessions, cur.addr);
    forall s | s in sessions && IsConnected(s)
      ensures PathOf(s) in paths
    {
    }
  }

  /** The state of the reconciliation when the first `n` candidates have been visited. */
  ghost predicate Progress(
      before: seq<PeerSession>, now: seq<PeerSession>, candidates: seq<SocketAddr>, n: nat, force: bool)
    requires n <= |candidates|
    reads set s | s in before + now :: s.session
  {
    && Distinct(now)
    && (forall s | s in now :: s.addr in candidates)
    && (forall i | 0 <= i < n :: candidates[i] in Addrs(now))
    && (forall s | s in now :: s.addr in candidates[n..] || (s.session.state != Timeout && (force ==> s !in before)))
    && (forall s | s in before && s.addr in candidates[n..] :: s in now)
    && (!force ==> forall s | s in before && s.addr in candidates && s.session.state != Timeout :: s in now)
  }

  /** What visiting `addr` does to the session set. */
  ghost predicate Visited(prior: seq<PeerSession>, now: seq<PeerSession>, addr: SocketAddr, force: bool)
    reads set s | s in prior + now :: s.session
  {
    && Distinct(now)
    && Addrs(now) == Addrs(prior) + {addr}
    && (forall s | s in prior && s.addr != addr :: s in now)
    && (forall s | s in now && s !in prior :: s.addr == addr)
    && (forall s | s in now && s.addr == addr :: s.session.state != Timeout && (force ==> s !in prior))
    && (!force ==> forall s | s in prior && s.session.state != Timeout :: s in now)
  }

  lemma ProgressStep(
      before: seq<PeerSession>, prior: seq<PeerSession>, now: seq<PeerSession>,
      candidates: seq<SocketAddr>, n: nat, force: bool)
    requires n < |candidates| && candidates[n] !in candidates[n + 1..]
    requires Progress(before, prior, candidates, n, force)
    requires Visited(prior, now, candidates[n], force)
    requires forall s | s in now && s !in prior :: s !in before
    ensures Progress(before, now, candidates, n + 1, force)
  {
  }

  lemma ProgressEnd(before: seq<PeerSession>, now: seq<PeerSession>, candidates: seq<SocketAddr>, force: bool)
    requires Progress(before, now, candidates, |candidates|, force)
    ensures Reconciled(before, now, candidates, force)
  {
  }

  class Peer {
    var info: PeerInfo
    var localPeerId: PeerId
    var sessions: seq<PeerSession>
    var selected: Option<SocketAddr>
    var codec: Codec

    ghost predicate Valid()
      reads this
    {
      Distinct(sessions) && codec.KeyedFor(localPeerId, info)
    }

    constructor (info: PeerInfo, localPeerId: PeerId)
      ensures Valid() && this.info == info && this.localPeerId == localPeerId && selected == None
      ensures Reconciled([], sessions, FirstOccurrences(Reported(info)), false)
    {
      this.info, this.localPeerId := info, localPeerId;
      sessions, selected := [], None;
      codec := new Codec(localPeerId, info);
      new;
      TryCreateTunnel(false);
    }

    method TryCreateTunnel(force: bool)
      requires Valid()
      modifies this`sessions
      ensures Valid()
      ensures Reconciled(old(sessions), sessions, FirstOccurrences(Reported(info)), force)
      ensures forall s | s in sessions :: s in old(sessions) || fresh(s.session)
    {
      var candidates := CandidateAddrs(info);
      ghost var before := sessions;
      sessions := Retain(sessions, candidates);
      for i := 0 to |candidates|
        invariant Progress(before, sessions, candidates, i, force)
        invariant forall s | s in sessions :: s in before || fresh(s.session)
      {
        ghost var prior := sessions;
        VisitCandidate(candidates[i], force);
        ProgressStep(before, prior, sessions, candidates, i, force);
      }
      ProgressEnd(before, sessions, candidates, force);
    }

    /** Leave a usable session toward `addr` as it is; otherwise open a fresh one. */
    method VisitCandidate(addr: SocketAddr, force: bool)
      requires Distinct(sessions)
      modifies this`sessions
      ensures Visited(old(sessions), sessions, addr, force)
      ensures forall s | s in sessions && s !in old(sessions) :: fresh(s.session)
    {
      var usable := !force && exists s | s in sessions :: s.addr == addr && s.session.state != Timeout;
      SameAddress(sessions, addr);
      if !usable {
        var entry := OpenSession(addr);
        SameAddress(sessions, addr);
      }
    }

    /** Put a fresh session toward `addr` in place of any existing one. */
    method OpenSession(addr: SocketAddr) returns (entry: PeerSession)
      requires Distinct(sessions)
      modifies this`sessions
      ensures Distinct(sessions)
      ensures entry.addr == addr && fresh(entry.session) && entry.session.state == Connecting
      ensures entry in sessions && forall s | s in old(sessions) && s.addr != addr :: s in sessions
      ensures forall s | s in sessions :: s == entry || (s in old(sessions) && s.addr != addr)
    {
      var nonce: nat := *;
      var session := new UdpTunnelSession(nonce);
      assert session.Value() == Fresh(nonce);
      entry := PeerSession(addr, session);
      for i := 0 to |sessions|
        invariant forall j | 0 <= j < i :: sessions[j].addr != addr
        invariant sessions == old(sessions)
      {
        if sessions[i].addr == addr {
          sessions := sessions[i := entry];
          assert forall s | s in old(sessions) && s.addr != addr :: s in sessions by {
            forall s | s in old(sessions) && s.addr != addr
              ensures s in sessions
            {
              var k :| 0 <= k < |old(sessions)| && old(sessions)[k] == s;
              assert sessions[k] == s;
            }
          }
          assert sessions[i] == entry;
          return;
        }
      }
      sessions := sessions + [entry];
    }

    /** The paths of the connected sessions. */
    method Connections() returns (connected: seq<Path>)
      ensures connected == ConnectedPaths(sessions)
    {
      connected := [];
      for i := 0 to |sessions|
        invariant ConnectedPaths(sessions) == connected + ConnectedPaths(sessions[i..])
      {
        var s := sessions[i];
        if s.session.state == Connected {
          connected := connected + [Path(s.addr, s.session.rtt)];
        }
      }
      assert connected + [] == connected;
    }

    method SelectSession()
      requires Valid()
      modifies this`selected
      ensures Valid() && Selects(sessions, old(selected), selected)
    {
      var connected := Connections();
      SelectsByPaths(sessions, selected);
      var current := if selected.Some? then FindPath(connected, selected.value) else None;
      var best := Best(connected);
      if best.None? {
        selected := None;
      } else if current.None? {
        selected := Some(best.value.addr);
      } else if best.value.addr != current.value.addr && ClearlyFaster(best.value.rtt, current.value.rtt) {
        selected := Some(best.value.addr);
      } else {
        selected := Some(current.value.addr);
      }
    }

    /** The address to send to directly: the cached pick, if its session is still connected. */
    method Address() returns (r: Option<SocketAddr>)
      requires Valid()
      ensures r.Some? ==> r == selected
      ensures r.Some? <==> exists s | s in sessions :: selected == Some(s.addr) && s.session.state == Connected
    {
      r := None;
      if selected.Some? {
        for i := 0 to |sessions|
          invariant forall j | 0 <= j < i :: sessions[j].addr != selected.value
        {
          if sessions[i].addr == selected.value {
            SameAddress(sessions, selected.value);
            return if sessions[i].session.state == Connected then selected else None;
          }
        }
      }
    }

    /** Refresh the identity; rebuild exactly what the change invalidates. */
    method UpdateInfo(info: PeerInfo, localPeerId: PeerId)
      requires Valid()
      modifies this
      ensures Valid() && this.info == info && this.localPeerId == localPeerId && selected == old(selected)
      ensures codec.localId == localPeerId && codec.remoteId == info.peerId && codec.network == info.network
      ensures codec == old(codec) <==>
                && old(this.localPeerId) == localPeerId
                && old(this.info).peerId == info.peerId && old(this.info).network == info.network
      ensures Reconciled(old(sessions), sessions, FirstOccurrences(Reported(info)),
                         old(this.info).network != info.network || old(this.info).natType != info.natType)
    {
      var identityChanged := this.info.network != info.network || this.info.natType != info.natType;
      var keysChanged := || this.info.network != info.network
                         || this.info.peerId != info.peerId
                         || this.localPeerId != localPeerId;
      this.info := info;
      this.localPeerId := localPeerId;
      if keysChanged {
        codec := new Codec(localPeerId, info);
      }
      TryCreateTunnel(identityChanged);
    }
  }

  /** With distinct addresses, two sessions toward one address are one session. */
  lemma SameAddress(sessions: seq<PeerSession>, addr: SocketAddr)
    requires Distinct(sessions)
    ensures forall s, t | s in sessions && t in sessions && s.addr == addr && t.addr == addr :: s == t
  {
  }
}
