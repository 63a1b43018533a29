/** The concurrent routing table: shared `Peer` objects under two keys, and the subnet table. */
module Routers {
  import opened Wrappers
  import opened Cidrs
  import opened HostInfos
  import opened RouteTable
  import opened Peers
  import R = RouterState

  class Router {
    var peers: map<IpAddr, Peer>
    var byPeerId: map<PeerId, IpAddr>
    var subnets: seq<Entry>
    /** The value of the whole table, kept in step by every method. */
    ghost var state: R.State

    /** Each peer is one object, stored once and valid. */
    ghost predicate Valid()
      reads this, peers.Values
    {
      && (forall ip, jp | ip in peers && jp in peers && peers[ip] == peers[jp] :: ip == jp)
      && state.byPeerId == byPeerId && state.subnets == subnets && state.peers.Keys == peers.Keys
      && forall ip | ip in peers :: Matches(peers[ip], state.peers[ip])
    }

    constructor ()
      ensures Valid() && state == R.EMPTY
    {
      peers, byPeerId, subnets, state := map[], map[], [], R.EMPTY;
    }

    method Insert(peer: Peer)
      requires Valid() && peer.Valid() && peer !in peers.Values
      modifies this`peers, this`byPeerId, this`state
      ensures Valid() && state == R.Insert(old(state), EntryOf(peer))
      ensures peers == old(peers)[peer.info.noeioIp := peer]
    {
      var ip, id := peer.info.noeioIp, peer.info.peerId;
      if ip in peers {
        var oldId := peers[ip].info.peerId;
        if oldId != id {
          byPeerId := byPeerId - {oldId};
        }
      }
      peers := peers[ip := peer];
      byPeerId := byPeerId[id := ip];
      state := R.Insert(state, EntryOf(peer));
    }

    /** Refresh a stored peer in place, moving its index entry along. */
    method UpdateInfo(peer: Peer, info: PeerInfo, localPeerId: PeerId)
      requires Valid() && info.noeioIp in peers && peers[info.noeioIp] == peer
      modifies this`byPeerId, this`state, peer
      ensures Valid() && state == R.Insert(old(state), R.PeerEntry(info, localPeerId))
    {
      var oldId, newId := peer.info.peerId, info.peerId;
      assert forall ip | ip in peers && ip != info.noeioIp :: peers[ip] != peer && Matches(peers[ip], state.peers[ip]);
      peer.UpdateInfo(info, localPeerId);
      assert Matches(peer, R.PeerEntry(info, localPeerId));
      if oldId != newId {
        byPeerId := byPeerId - {oldId};
      }
      byPeerId := byPeerId[newId := info.noeioIp];
      state := R.Insert(state, R.PeerEntry(info, localPeerId));
    }

    method Lookup(ip: IpAddr) returns (r: Option<Peer>)
      requires Valid()
      ensures R.Lookup(state, ip) == if r.Some? then Some(EntryOf(r.value)) else None
      ensures r.Some? ==> r.value in peers.Values
    {
      if ip in peers {
        return Some(peers[ip]);
      }
      match ip {
        case V6(_) => return None;
        case V4(a) =>
          match FirstMatch(subnets, a) {
            case None => return None;
            case Some(e) =>
              if e.exit in byPeerId && byPeerId[e.exit] in peers {
                return Some(peers[byPeerId[e.exit]]);
              }
              return None;
          }
      }
    }

    method SetSubnets(entries: seq<Entry>)
      requires Valid()
      modifies this`subnets, this`state
      ensures Valid() && state == old(state).(subnets := Canonical(entries))
    {
      subnets := Dedup(Sort(entries));
      state := state.(subnets := subnets);
    }

    method Remove(ip: IpAddr) returns (removed: bool)
      requires Valid()
      modifies this
      ensures Valid() && state == R.Remove(old(state), ip) && removed == (ip in old(peers))
      ensures peers == old(peers) - {ip}
    {
      removed := ip in peers;
      if removed {
        var id := peers[ip].info.peerId;
        peers := peers - {ip};
        byPeerId := byPeerId - {id};
        subnets := R.WithoutExit(subnets, id);
        state := R.Remove(state, ip);
      }
    }

    method RemoveByPeerId(id: PeerId) returns (removed: bool)
      requires Valid()
      modifies this
      ensures Valid() && state == R.RemoveByPeerId(old(state), id)
      ensures removed == (id in old(byPeerId) && old(byPeerId)[id] in old(peers))
      ensures peers.Values <= old(peers.Values)
    {
      removed := false;
      if id in byPeerId {
        removed := Remove(byPeerId[id]);
      }
    }

    /** All known peers, in the hash map's own, arbitrary order. */
    method All() returns (all: seq<Peer>)
      ensures forall p :: p in all <==> p in peers.Values
      ensures |all| == |peers|
    {
      all := [];
      var rest := peers;
      while rest != map[]
        invariant rest.Keys <= peers.Keys && forall ip | ip in rest :: rest[ip] == peers[ip]
        invariant forall p :: p in peers.Values <==> p in all || p in rest.Values
        invariant |all| + |rest| == |peers|
        decreases |rest|
      {
        var ip :| ip in rest;
        all := all + [rest[ip]];
        var next := rest - {ip};
        assert rest.Keys == next.Keys + {ip};
        assert rest == next[ip := rest[ip]];
        assert forall p :: p in rest.Values <==> p == rest[ip] || p in next.Values;
        rest := next;
      }
    }
  }

  ghost predicate Matches(peer: Peer, entry: R.PeerEntry)
    reads peer
  {
    peer.Valid() && peer.info == entry.info && peer.localPeerId == entry.nic
  }

  function EntryOf(peer: Peer): R.PeerEntry
    reads peer
  {
    R.PeerEntry(peer.info, peer.localPeerId)
  }
}
