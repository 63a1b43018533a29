/**
 The kernel's routing table and the user-space lookup are computed apart, from
 the same router state. Here: that they answer every address alike.
 */
module RouteAgreement {
  import opened Wrappers
  import opened Cidrs
  import opened HostInfos
  import opened RoutePolicy
  import opened RouteTable
  import opened RouterState
  import opened StateFile
  import opened KernelMirror
  import opened Reconcilers

  // ---- what the router state feeds into both ----------------------------------------------------

  function AdvertsBy(id: PeerId, cidrs: seq<Cidr>): seq<Advert> {
    if cidrs == [] then [] else [Advert(id, cidrs[0])] + AdvertsBy(id, cidrs[1..])
  }

  /** Every advertisement of every peer, in the order the peers are listed. */
  function AdvertsOf(order: seq<PeerEntry>): seq<Advert> {
    if order == [] then []
    else AdvertsBy(order[0].info.peerId, order[0].info.advertisedRoutes) + AdvertsOf(order[1..])
  }

  lemma {:induction false} AdvertsByMeaning(id: PeerId, cidrs: seq<Cidr>, a: Advert)
    ensures a in AdvertsBy(id, cidrs) <==> a.peerId == id && a.cidr in cidrs
  {
    if cidrs != [] {
      AdvertsByMeaning(id, cidrs[1..], a);
    }
  }

  /** The advertisements are those of the listed peers, and no others. */
  lemma {:induction false} AdvertsOfMeaning(order: seq<PeerEntry>, a: Advert)
    ensures a in AdvertsOf(order) <==>
            exists e | e in order :: e.info.peerId == a.peerId && a.cidr in e.info.advertisedRoutes
  {
    if order != [] {
      AdvertsByMeaning(order[0].info.peerId, order[0].info.advertisedRoutes, a);
      AdvertsOfMeaning(order[1..], a);
    }
  }

  lemma AdvertsCons(head: PeerEntry, tail: seq<PeerEntry>)
    ensures AdvertsOf([head] + tail) == AdvertsBy(head.info.peerId, head.info.advertisedRoutes) + AdvertsOf(tail)
  {
    assert ([head] + tail)[1..] == tail;
  }

  lemma {:induction false} AdvertsExtend(order: seq<PeerEntry>, e: PeerEntry)
    ensures AdvertsOf(order + [e]) == AdvertsOf(order) + AdvertsBy(e.info.peerId, e.info.advertisedRoutes)
    decreases |order|
  {
    if order == [] {
      AdvertsCons(e, []);
      assert [] + [e] == [e] + [];
    } else {
      var head, rest := order[0], order[1..];
      AdvertsExtend(rest, e);
      AdvertsCons(head, rest + [e]);
      AdvertsCons(head, rest);
      assert order == [head] + rest;
      assert order + [e] == [head] + (rest + [e]);
    }
  }

  function SubnetsOf(table: seq<Entry>, id: PeerId): (r: seq<Cidr>)
    ensures forall c :: c in r <==> Entry(c, id) in table
  {
    if table == [] then []
    else
      var rest := SubnetsOf(table[1..], id);
      assert forall e | e in table :: e == table[0] || e in table[1..];
      if table[0].exit == id then
        assert Entry(table[0].cidr, id) == table[0];
        [table[0].cidr] + rest
      else rest
  }

  function RoutesOf(s: State, e: PeerEntry): PeerRoutes {
    PeerRoutes(e.nic, e.info.peerId, e.info.noeioIp, SubnetsOf(s.subnets, e.info.peerId))
  }

  function Snapshot(s: State, order: seq<PeerEntry>): seq<PeerRoutes> {
    seq(|order|, i requires 0 <= i < |order| => RoutesOf(s, order[i]))
  }

  /** `order` lists the stored peers, in whatever order the hash map yields them. */
  ghost predicate Lists(order: seq<PeerEntry>, s: State) {
    forall e :: e in order <==> e in s.peers.Values
  }

  /** The subnet table is what the policy accepts of the stored peers' advertisements. */
  ghost predicate IsRefreshed(s: State, policy: ConsumerPolicy) {
    exists order: seq<PeerEntry> :: Lists(order, s) && s.subnets == AcceptedTable(policy, AdvertsOf(order))
  }

  /** The order in which peers are listed does not show in the table. */
  lemma RefreshIgnoresOrder(s: State, policy: ConsumerPolicy, order: seq<PeerEntry>)
    requires IsRefreshed(s, policy) && Lists(order, s)
    ensures s.subnets == AcceptedTable(policy, AdvertsOf(order))
  {
    var other: seq<PeerEntry> :| Lists(other, s) && s.subnets == AcceptedTable(policy, AdvertsOf(other));
    forall a
      ensures a in AdvertsOf(order) <==> a in AdvertsOf(other)
    {
      AdvertsOfMeaning(order, a);
      AdvertsOfMeaning(other, a);
    }
    TableIsCanonical(policy, AdvertsOf(order), AdvertsOf(other));
  }

  // ---- what a refreshed table holds, in terms of the stored peers ---------------------------------

  ghost predicate Advertises(s: State, id: PeerId, cidr: Cidr) {
    exists ip | ip in s.peers :: s.peers[ip].info.peerId == id
      && exists c | c in s.peers[ip].info.advertisedRoutes :: Network(c) == cidr
  }

  ghost predicate IsLowestAdvertiser(s: State, t: Entry) {
    Advertises(s, t.exit, t.cidr) && forall id | Advertises(s, id, t.cidr) :: t.exit <= id
  }

  /** Of length 8 or more, and without any protected address. */
  ghost predicate MayInstall(policy: ConsumerPolicy, cidr: Cidr) {
    cidr.prefixLen >= 8 && forall x: Addr | ContainsAddr(cidr, x) :: !IsProtected(policy, x)
  }

  /** With routes on, the table holds exactly the permitted prefixes, each with its lowest stored advertiser; with routes off, nothing. */
  lemma TableMeaning(s: State, policy: ConsumerPolicy, t: Entry)
    requires IsRefreshed(s, policy)
    ensures t in s.subnets <==> policy.acceptRoutes && IsLowestAdvertiser(s, t) && MayInstall(policy, t.cidr)
  {
    var order: seq<PeerEntry> :| Lists(order, s) && s.subnets == AcceptedTable(policy, AdvertsOf(order));
    AcceptedMeaning(policy, AdvertsOf(order), t);
    RulePassesIffUnprotected(policy, t.cidr);
    forall id: PeerId
      ensures id in Advertisers(AdvertsOf(order), t.cidr) <==> Advertises(s, id, t.cidr)
    {
      AdvertisersMeaning(s, order, id, t.cidr);
    }
  }

  lemma AdvertisersMeaning(s: State, order: seq<PeerEntry>, id: PeerId, cidr: Cidr)
    requires Lists(order, s)
    ensures id in Advertisers(AdvertsOf(order), cidr) <==> Advertises(s, id, cidr)
  {
    if id in Advertisers(AdvertsOf(order), cidr) {
      var a :| a in AdvertsOf(order) && Network(a.cidr) == cidr && a.peerId == id;
      AdvertsOfMeaning(order, a);
      var e: PeerEntry :| e in order && e.info.peerId == id && a.cidr in e.info.advertisedRoutes;
      var ip :| ip in s.peers && s.peers[ip] == e;
    }
    if Advertises(s, id, cidr) {
      var ip :| ip in s.peers && s.peers[ip].info.peerId == id
                && exists c | c in s.peers[ip].info.advertisedRoutes :: Network(c) == cidr;
      var c :| c in s.peers[ip].info.advertisedRoutes && Network(c) == cidr;
      assert s.peers[ip] in s.peers.Values;
      AdvertsOfMeaning(order, Advert(id, c));
      assert Advert(id, c) in AdvertsOf(order);
    }
  }

  // ---- accepted entries and their exits -----------------------------------------------------------

  /** Every table entry is a prefix its exit really advertised, and the exit resolves. */
  lemma EntryHasExit(s: State, policy: ConsumerPolicy, t: Entry)
    requires IndexExact(s) && IsRefreshed(s, policy) && t in s.subnets
    ensures InNetworkForm(t.cidr) && GetByPeerId(s, t.exit).Some?
    ensures var e := GetByPeerId(s, t.exit).value;
            && e in s.peers.Values && e.info.peerId == t.exit
            && exists c | c in e.info.advertisedRoutes :: Network(c) == t.cidr
  {
    var order: seq<PeerEntry> :| Lists(order, s) && s.subnets == AcceptedTable(policy, AdvertsOf(order));
    AcceptedMeaning(policy, AdvertsOf(order), t);
    AcceptedOneExit(policy, AdvertsOf(order));
    var a :| a in AdvertsOf(order) && Network(a.cidr) == t.cidr && a.peerId == t.exit;
    AdvertsOfMeaning(order, a);
    var p: PeerEntry :| p in order && p.info.peerId == a.peerId && a.cidr in p.info.advertisedRoutes;
    var ip :| ip in s.peers && s.peers[ip] == p;
    assert GetByPeerId(s, t.exit) == Some(p);
  }

  lemma TableIsOneExit(s: State, policy: ConsumerPolicy)
    requires IsRefreshed(s, policy)
    ensures OneExitPerPrefix(s.subnets) && StrictlyOrdered(s.subnets)
  {
    var order: seq<PeerEntry> :| Lists(order, s) && s.subnets == AcceptedTable(policy, AdvertsOf(order));
    TableIsCanonical(policy, AdvertsOf(order), AdvertsOf(order));
  }

  // ---- the lookup -----------------------------------------------------------------------------------

  /** `t` is an entry of the longest accepted prefix containing `x`. */
  ghost predicate IsLongestAccepted(s: State, policy: ConsumerPolicy, x: Addr, t: Entry) {
    && policy.acceptRoutes && IsLowestAdvertiser(s, t) && MayInstall(policy, t.cidr) && ContainsAddr(t.cidr, x)
    && forall u: Entry | IsLowestAdvertiser(s, u) && MayInstall(policy, u.cidr) && ContainsAddr(u.cidr, x) ::
         u.cidr.prefixLen <= t.cidr.prefixLen
  }

  /**
   The lookup answers the owner of a stored address; for any other IPv4 address
   the one peer that is the exit of the longest accepted prefix containing it, or
   none if there is no such prefix; and for any other IPv6 address none.
   */
  lemma LookupMeaning(s: State, policy: ConsumerPolicy, ip: IpAddr)
    requires IndexExact(s) && IsRefreshed(s, policy)
    ensures ip in s.peers ==> Lookup(s, ip) == Some(s.peers[ip])
    ensures ip !in s.peers && ip.V6? ==> Lookup(s, ip) == None
    ensures ip !in s.peers && ip.V4? && Lookup(s, ip) == None ==> forall t: Entry :: !IsLongestAccepted(s, policy, ip.v4, t)
    ensures ip !in s.peers && ip.V4? && Lookup(s, ip).Some? ==>
              && Lookup(s, ip).value in s.peers.Values
              && (exists t: Entry :: IsLongestAccepted(s, policy, ip.v4, t))
              && forall t: Entry | IsLongestAccepted(s, policy, ip.v4, t) :: t.exit == Lookup(s, ip).value.info.peerId
  {
    if ip !in s.peers && ip.V4? {
      forall t: Entry
        ensures t in s.subnets <==> policy.acceptRoutes && IsLowestAdvertiser(s, t) && MayInstall(policy, t.cidr)
      {
        TableMeaning(s, policy, t);
      }
      if FirstMatch(s.subnets, ip.v4).Some? {
        var f := FirstMatch(s.subnets, ip.v4).value;
        TableIsOneExit(s, policy);
        FirstMatchOrdered(s.subnets, ip.v4);
        EntryHasExit(s, policy, f);
        assert IsLongestAccepted(s, policy, ip.v4, f);
        forall t: Entry | IsLongestAccepted(s, policy, ip.v4, t)
          ensures t == f
        {
          LongestMatchUnique(s.subnets, ip.v4, t, f);
        }
      }
    }
  }

  // ---- outbound and inbound are symmetric ------------------------------------------------------------

  /** A peer that packets are sent through owns or advertises the address, so its replies pass the source check. */
  lemma RepliesAreAllowed(s: State, policy: ConsumerPolicy, ip: IpAddr)
    requires IndexExact(s) && IsRefreshed(s, policy) && Lookup(s, ip).Some?
    ensures AllowedSource(Lookup(s, ip).value.info, ip)
  {
    if ip !in s.peers {
      var t := FirstMatch(s.subnets, ip.v4).value;
      EntryHasExit(s, policy, t);
      var e := GetByPeerId(s, t.exit).value;
      var c :| c in e.info.advertisedRoutes && Network(c) == t.cidr;
      NetworkKeepsMembers(c, ip.v4);
    }
  }

  // ---- the kernel agrees with the lookup ---------------------------------------------------------------

  ghost predicate AllNicsKnown(s: State, nics: set<PeerId>) {
    forall ip | ip in s.peers :: s.peers[ip].nic in nics
  }

  ghost predicate IsHostRoute(s: State, k: RouteKey) {
    k.cidr.prefixLen == 32 && V4(k.cidr.address) in s.peers && k.nic == s.peers[V4(k.cidr.address)].nic
  }

  ghost predicate IsSubnetRoute(s: State, k: RouteKey) {
    exists t | t in s.subnets :: k.cidr == t.cidr && GetByPeerId(s, t.exit).Some? && k.nic == GetByPeerId(s, t.exit).value.nic
  }

  /** What the desired set holds: one host route per peer, one route per accepted entry. */
  lemma DesiredMeaning(s: State, policy: ConsumerPolicy, nics: set<PeerId>, order: seq<PeerEntry>, k: RouteKey)
    requires IndexExact(s) && IsRefreshed(s, policy) && Lists(order, s) && AllNicsKnown(s, nics)
    ensures k in DesiredRoutes(nics, Snapshot(s, order)) <==> IsHostRoute(s, k) || IsSubnetRoute(s, k)
  {
    var routes := Snapshot(s, order);
    if k in DesiredRoutes(nics, routes) {
      var p :| p in routes && p.nic in nics && k in Keys(p);
      var i :| 0 <= i < |order| && routes[i] == p;
      DesiredOnlyKnown(s, policy, order[i], k);
    }
    if IsHostRoute(s, k) {
      InDesired(s, nics, order, s.peers[V4(k.cidr.address)], k);
    }
    if IsSubnetRoute(s, k) {
      var t :| t in s.subnets && k.cidr == t.cidr && GetByPeerId(s, t.exit).Some? && k.nic == GetByPeerId(s, t.exit).value.nic;
      EntryHasExit(s, policy, t);
      var e := GetByPeerId(s, t.exit).value;
      assert t.cidr in SubnetsOf(s.subnets, e.info.peerId);
      InDesired(s, nics, order, e, k);
    }
  }

  lemma DesiredOnlyKnown(s: State, policy: ConsumerPolicy, e: PeerEntry, k: RouteKey)
    requires IndexExact(s) && IsRefreshed(s, policy) && e in s.peers.Values && k in Keys(RoutesOf(s, e))
    ensures IsHostRoute(s, k) || IsSubnetRoute(s, k)
  {
    var ip :| ip in s.peers && s.peers[ip] == e;
    if !IsHostRoute(s, k) {
      var c :| c in SubnetsOf(s.subnets, e.info.peerId) && k == RouteKey(e.nic, Network(c));
      var t := Entry(c, e.info.peerId);
      EntryHasExit(s, policy, t);
      assert GetByPeerId(s, t.exit) == Some(e) && k.cidr == t.cidr;
    }
  }

  lemma InDesired(s: State, nics: set<PeerId>, order: seq<PeerEntry>, e: PeerEntry, k: RouteKey)
    requires Lists(order, s) && AllNicsKnown(s, nics) && e in s.peers.Values && k in Keys(RoutesOf(s, e))
    ensures k in DesiredRoutes(nics, Snapshot(s, order))
  {
    var i :| 0 <= i < |order| && order[i] == e;
    assert Snapshot(s, order)[i] == RoutesOf(s, e);
  }

  ghost predicate Covered(routes: set<RouteKey>, x: Addr) {
    exists k | k in routes :: ContainsAddr(k.cidr, x)
  }

  /** `k` is a longest route covering `x`, the one the kernel takes. */
  ghost predicate IsKernelChoice(routes: set<RouteKey>, x: Addr, k: RouteKey) {
    && k in routes && ContainsAddr(k.cidr, x)
    && forall l | l in routes && ContainsAddr(l.cidr, x) :: l.cidr.prefixLen <= k.cidr.prefixLen
  }

  /** No accepted /32 names a peer's overlay address while its exit sits on another nic. */
  ghost predicate NoHostClash(s: State) {
    forall t | t in s.subnets && t.cidr.prefixLen == 32 && V4(t.cidr.address) in s.peers ::
      GetByPeerId(s, t.exit).Some? ==> GetByPeerId(s, t.exit).value.nic == s.peers[V4(t.cidr.address)].nic
  }

  /** What the route set of a converged reconciler must be. */
  ghost predicate Converged(s: State, routes: set<RouteKey>) {
    forall k :: k in routes <==> IsHostRoute(s, k) || IsSubnetRoute(s, k)
  }

  /** An address is covered by an installed route if and only if the lookup finds a peer for it. */
  lemma CoverageAgrees(s: State, policy: ConsumerPolicy, routes: set<RouteKey>, x: Addr)
    requires IndexExact(s) && IsRefreshed(s, policy) && Converged(s, routes)
    ensures Covered(routes, x) <==> Lookup(s, V4(x)).Some?
  {
    if Covered(routes, x) {
      var k :| k in routes && ContainsAddr(k.cidr, x);
      if IsHostRoute(s, k) {
        HostPrefix(k.cidr.address, x);
      } else {
        assert IsSubnetRoute(s, k);
        EntryHasExit(s, policy, FirstMatch(s.subnets, x).value);
      }
    }
    if Lookup(s, V4(x)).Some? {
      LookupIsCovered(s, routes, x);
    }
  }

  lemma LookupIsCovered(s: State, routes: set<RouteKey>, x: Addr)
    requires Converged(s, routes) && Lookup(s, V4(x)).Some?
    ensures Covered(routes, x)
  {
    if V4(x) in s.peers {
      HostPrefix(x, x);
      assert IsHostRoute(s, RouteKey(s.peers[V4(x)].nic, Cidr(x, 32)));
    } else {
      var t := FirstMatch(s.subnets, x).value;
      assert IsSubnetRoute(s, RouteKey(GetByPeerId(s, t.exit).value.nic, t.cidr));
    }
  }

  /** Away from overlay addresses the kernel's longest route and the lookup's first match are one entry. */
  lemma SubnetChoiceAgrees(s: State, policy: ConsumerPolicy, routes: set<RouteKey>, x: Addr, k: RouteKey)
    requires IndexExact(s) && IsRefreshed(s, policy) && Converged(s, routes)
    requires V4(x) !in s.peers && IsKernelChoice(routes, x, k)
    ensures Lookup(s, V4(x)).Some? && k in Keys(RoutesOf(s, Lookup(s, V4(x)).value))
  {
    if IsHostRoute(s, k) {
      HostPrefix(k.cidr.address, x);
    }
    var t :| t in s.subnets && k.cidr == t.cidr && GetByPeerId(s, t.exit).Some? && k.nic == GetByPeerId(s, t.exit).value.nic;
    TableIsOneExit(s, policy);
    FirstMatchOrdered(s.subnets, x);
    var f := FirstMatch(s.subnets, x).value;
    EntryHasExit(s, policy, f);
    assert IsSubnetRoute(s, RouteKey(GetByPeerId(s, f.exit).value.nic, f.cidr));
    LongestMatchUnique(s.subnets, x, t, f);
    assert f.cidr in SubnetsOf(s.subnets, f.exit);
  }

  /** At an overlay address every kernel choice is a /32: the host route, or a clashing accepted /32. */
  lemma HostChoiceAgrees(s: State, policy: ConsumerPolicy, routes: set<RouteKey>, x: Addr, k: RouteKey)
    requires IndexExact(s) && IsRefreshed(s, policy) && Converged(s, routes) && NoHostClash(s)
    requires V4(x) in s.peers && IsKernelChoice(routes, x, k)
    ensures k in Keys(RoutesOf(s, s.peers[V4(x)]))
  {
    HostPrefix(x, x);
    assert IsHostRoute(s, RouteKey(s.peers[V4(x)].nic, Cidr(x, 32)));
    HostPrefix(k.cidr.address, x);
    assert k.cidr == Cidr(x, 32);
  }

  /** Whichever longest route the kernel takes, it is one that the peer the lookup names contributes, through that peer's nic. */
  ghost predicate EgressAgrees(s: State, routes: set<RouteKey>) {
    forall x, k | IsKernelChoice(routes, x, k) ::
      Lookup(s, V4(x)).Some? && k in Keys(RoutesOf(s, Lookup(s, V4(x)).value))
  }

  /**
   For every covered address, whichever longest route the kernel takes is one of the
   peer the lookup names, out of that peer's nic, if and only if no accepted /32
   clashes with a peer's overlay address.
   */
  lemma EgressAgreesIff(s: State, policy: ConsumerPolicy, routes: set<RouteKey>)
    requires IndexExact(s) && IsRefreshed(s, policy) && Converged(s, routes)
    ensures EgressAgrees(s, routes) <==> NoHostClash(s)
  {
    if NoHostClash(s) {
      forall x, k | IsKernelChoice(routes, x, k)
        ensures Lookup(s, V4(x)).Some? && k in Keys(RoutesOf(s, Lookup(s, V4(x)).value))
      {
        if V4(x) in s.peers {
          HostChoiceAgrees(s, policy, routes, x, k);
        } else {
          SubnetChoiceAgrees(s, policy, routes, x, k);
        }
      }
    } else {
      var t :| t in s.subnets && t.cidr.prefixLen == 32 && V4(t.cidr.address) in s.peers && GetByPeerId(s, t.exit).Some?
               && GetByPeerId(s, t.exit).value.nic != s.peers[V4(t.cidr.address)].nic;
      var k := RouteKey(GetByPeerId(s, t.exit).value.nic, t.cidr);
      assert IsSubnetRoute(s, k);
      assert IsKernelChoice(routes, t.cidr.address, k);
    }
  }

  /** Peer 10 owns the overlay address `a` in nic 1's network; peer 20, in nic 2's, owns `b` and advertises `a` as a /32. */
  function OwnerOf(a: Addr): PeerInfo {
    PeerInfo(1, 10, V4(a), 1, Other, None, [], [], false)
  }

  function Claimant(a: Addr, b: Addr): PeerInfo {
    PeerInfo(1, 20, V4(b), 2, Other, None, [], [Cidr(a, 32)], false)
  }

  /** The policy of a node with two nics, which has overlay addresses of its own. */
  function TwoNicPolicy(own1: IpAddr, own2: IpAddr): ConsumerPolicy {
    ConsumerPolicy(true, [], [], Protected([own1, own2], []))
  }

  /**
   The clash arises from two SyncRoutes and a refresh under a policy that protects
   this node's addresses in both networks, for nobody protects the address of
   another peer; and the kernel may then send its packets out of the other nic.
   */
  lemma HostClashHappens(a: Addr, b: Addr, own1: IpAddr, own2: IpAddr)
    requires a != b && own1 != V4(a) && own2 != V4(a)
    requires !ContainsAddr(LOOPBACK, a) && !ContainsAddr(LINK_LOCAL, a)
    ensures var policy := TwoNicPolicy(own1, own2);
            var order := [PeerEntry(OwnerOf(a), 1), PeerEntry(Claimant(a, b), 2)];
            var s := AfterAll(EMPTY, [Sync(OwnerOf(a), 1), Sync(Claimant(a, b), 2), Refresh(AcceptedTable(policy, AdvertsOf(order)))]);
            && Lists(order, s) && IndexExact(s) && IsRefreshed(s, policy)
            && !EgressAgrees(s, DesiredRoutes({1, 2}, Snapshot(s, order)))
  {
    var policy := TwoNicPolicy(own1, own2);
    var order := [PeerEntry(OwnerOf(a), 1), PeerEntry(Claimant(a, b), 2)];
    var t := Entry(Cidr(a, 32), 20);
    var s := ClashState(a, b, t);
    ClaimIsAccepted(a, own1, own2);
    SoleAdvert(order[0], order[1], t.cidr);
    ClashIsReached(a, b, t);
    ClashIsExact(a, b, t);
    assert IsRefreshed(s, policy);
    var desired := DesiredRoutes({1, 2}, Snapshot(s, order));
    forall k
      ensures k in desired <==> IsHostRoute(s, k) || IsSubnetRoute(s, k)
    {
      DesiredMeaning(s, policy, {1, 2}, order, k);
    }
    EgressAgreesIff(s, policy, desired);
  }

  lemma ClashIsExact(a: Addr, b: Addr, t: Entry)
    requires a != b && t == Entry(Cidr(a, 32), 20)
    ensures var s := ClashState(a, b, t);
            && Lists([PeerEntry(OwnerOf(a), 1), PeerEntry(Claimant(a, b), 2)], s)
            && IndexExact(s) && AllNicsKnown(s, {1, 2}) && !NoHostClash(s)
  {
    var s := ClashState(a, b, t);
    assert s.peers.Keys == {V4(a), V4(b)};
    assert t in s.subnets && GetByPeerId(s, 20) == Some(PeerEntry(Claimant(a, b), 2));
  }

  function ClashState(a: Addr, b: Addr, t: Entry): State {
    State(map[V4(a) := PeerEntry(OwnerOf(a), 1), V4(b) := PeerEntry(Claimant(a, b), 2)], map[10 := V4(a), 20 := V4(b)], [t])
  }

  lemma ClashIsReached(a: Addr, b: Addr, t: Entry)
    requires a != b
    ensures AfterAll(EMPTY, [Sync(OwnerOf(a), 1), Sync(Claimant(a, b), 2), Refresh([t])]) == ClashState(a, b, t)
  {
    var events := [Sync(OwnerOf(a), 1), Sync(Claimant(a, b), 2), Refresh([t])];
    var s1 := After(EMPTY, events[0]);
    var s2 := After(s1, events[1]);
    var s3 := After(s2, events[2]);
    assert events[1..][0] == events[1] && events[1..][1..] == [events[2]] && [events[2]][1..] == [];
    assert AfterAll(EMPTY, events) == AfterAll(s1, events[1..]) == AfterAll(s2, [events[2]]) == AfterAll(s3, []);
    assert Canonical([t]) == [t] by {
      assert Sort([t]) == [t];
    }
  }

  lemma ClaimIsAccepted(a: Addr, own1: IpAddr, own2: IpAddr)
    requires own1 != V4(a) && own2 != V4(a)
    requires !ContainsAddr(LOOPBACK, a) && !ContainsAddr(LINK_LOCAL, a)
    ensures AcceptedTable(TwoNicPolicy(own1, own2), [Advert(20, Cidr(a, 32))]) == [Entry(Cidr(a, 32), 20)]
  {
    var policy, host := TwoNicPolicy(own1, own2), Cidr(a, 32);
    forall x: Addr | ContainsAddr(host, x)
      ensures !IsProtected(policy, x)
    {
      HostPrefix(a, x);
    }
    RulePassesIffUnprotected(policy, host);
    HostPrefix(a, a);
    SoleAdvertIsAccepted(policy, 20, host);
  }

  lemma SoleAdvert(silent: PeerEntry, exit: PeerEntry, cidr: Cidr)
    requires silent.info.advertisedRoutes == [] && exit.info.advertisedRoutes == [cidr]
    ensures AdvertsOf([silent, exit]) == [Advert(exit.info.peerId, cidr)]
  {
    AdvertsExtend([], silent);
    AdvertsExtend([silent], exit);
    assert [silent] + [exit] == [silent, exit] && [] + [silent] == [silent];
    assert AdvertsBy(exit.info.peerId, [cidr]) == [Advert(exit.info.peerId, cidr)];
  }

  lemma SoleAdvertIsAccepted(policy: ConsumerPolicy, id: PeerId, cidr: Cidr)
    requires policy.acceptRoutes && PrefixRule(policy, cidr).None? && InNetworkForm(cidr)
    ensures AcceptedTable(policy, [Advert(id, cidr)]) == [Entry(cidr, id)]
  {
  }

  /**
   The routes are the router's host and subnet routes, cover exactly what its
   lookup resolves, and leave through the same nic unless an accepted /32 clashes.
   */
  ghost predicate Agree(s: State, routes: set<RouteKey>) {
    && Converged(s, routes)
    && (forall x: Addr :: Covered(routes, x) <==> Lookup(s, V4(x)).Some?)
    && (EgressAgrees(s, routes) <==> NoHostClash(s))
  }

  /** A pass that reached its goal: the installed routes are the router's, and cover what the lookup resolves. */
  lemma GoalAgrees(s: State, policy: ConsumerPolicy, nics: set<PeerId>, order: seq<PeerEntry>)
    requires IndexExact(s) && IsRefreshed(s, policy) && Lists(order, s) && AllNicsKnown(s, nics)
    ensures Agree(s, DesiredRoutes(nics, Snapshot(s, order)))
  {
    var desired := DesiredRoutes(nics, Snapshot(s, order));
    forall k
      ensures k in desired <==> IsHostRoute(s, k) || IsSubnetRoute(s, k)
    {
      DesiredMeaning(s, policy, nics, order, k);
    }
    forall x: Addr
      ensures Covered(desired, x) <==> Lookup(s, V4(x)).Some?
    {
      CoverageAgrees(s, policy, desired, x);
    }
    EgressAgreesIff(s, policy, desired);
  }

  // ---- and so does the kernel itself ------------------------------------------------------------

  ghost predicate IsOurs(r: KernelRoute, nics: Nics) {
    r.ifindex in nics.Values
  }

  ghost predicate KernelCovers(routes: set<KernelRoute>, nics: Nics, x: Addr) {
    exists r | r in routes :: IsOurs(r, nics) && ContainsAddr(r.cidr, x)
  }

  /** `r` is a longest of the routes through our nics that cover `x`. */
  ghost predicate IsKernelPick(routes: set<KernelRoute>, nics: Nics, x: Addr, r: KernelRoute) {
    && r in routes && IsOurs(r, nics) && ContainsAddr(r.cidr, x)
    && forall o | o in routes && IsOurs(o, nics) && ContainsAddr(o.cidr, x) :: o.cidr.prefixLen <= r.cidr.prefixLen
  }

  /** `r` is the kernel's form of a route that the peer contributes. */
  ghost predicate IsRouteOfPeer(s: State, nics: Nics, e: PeerEntry, r: KernelRoute) {
    InterfaceOf(nics, e.nic) == Some(r.ifindex) && RouteKey(e.nic, r.cidr) in Keys(RoutesOf(s, e))
  }

  /** Whichever longest route through our nics the kernel takes, it is one of the peer the lookup names, to that peer's interface. */
  ghost predicate KernelEgressAgrees(s: State, routes: set<KernelRoute>, nics: Nics) {
    forall x, r | IsKernelPick(routes, nics, x, r) ::
      Lookup(s, V4(x)).Some? && IsRouteOfPeer(s, nics, Lookup(s, V4(x)).value, r)
  }

  /**
   The kernel's own table: an address has a route through one of our nics exactly
   if the lookup finds a peer for it, and the longest leads to that peer's
   interface for all addresses exactly if no accepted /32 clashes.
   */
  ghost predicate KernelAgrees(s: State, routes: set<KernelRoute>, nics: Nics) {
    && (forall x: Addr :: KernelCovers(routes, nics, x) <==> Lookup(s, V4(x)).Some?)
    && (KernelEgressAgrees(s, routes, nics) <==> NoHostClash(s))
  }

  /** What holds of a mirrored record holds of the kernel. */
  lemma MirroredKernelAgrees(s: State, t: Tables, nics: Nics)
    requires Agree(s, t.record) && Mirrors(t, nics) && Injective(nics)
    requires forall k | k in t.record :: k.nic in nics
    ensures KernelAgrees(s, t.routes, nics)
  {
    forall x: Addr
      ensures KernelCovers(t.routes, nics, x) <==> Covered(t.record, x)
    {
      CoverageMirrors(t, nics, x);
    }
    forall x, r | EgressAgrees(s, t.record) && IsKernelPick(t.routes, nics, x, r)
      ensures Lookup(s, V4(x)).Some? && IsRouteOfPeer(s, nics, Lookup(s, V4(x)).value, r)
    {
      var nic :| nic in nics && nics[nic] == r.ifindex;
      PicksMirror(t, nics, x, RouteKey(nic, r.cidr));
    }
    forall x, k | KernelEgressAgrees(s, t.routes, nics) && IsKernelChoice(t.record, x, k)
      ensures Lookup(s, V4(x)).Some? && k in Keys(RoutesOf(s, Lookup(s, V4(x)).value))
    {
      assert RouteKey(k.nic, k.cidr) == k;
      PicksMirror(t, nics, x, k);
    }
  }

  lemma CoverageMirrors(t: Tables, nics: Nics, x: Addr)
    requires Mirrors(t, nics) && forall k | k in t.record :: k.nic in nics
    ensures KernelCovers(t.routes, nics, x) <==> Covered(t.record, x)
  {
    if r :| r in t.routes && IsOurs(r, nics) && ContainsAddr(r.cidr, x) {
      var nic :| nic in nics && nics[nic] == r.ifindex;
      assert KernelRoute(nics[nic], r.cidr) == r;
      assert RouteKey(nic, r.cidr) in t.record;
    }
    if k :| k in t.record && ContainsAddr(k.cidr, x) {
      assert RouteKey(k.nic, k.cidr) == k;
      assert KernelRoute(nics[k.nic], k.cidr) in t.routes;
    }
  }

  lemma PicksMirror(t: Tables, nics: Nics, x: Addr, k: RouteKey)
    requires Mirrors(t, nics) && Injective(nics) && k.nic in nics
    requires forall l | l in t.record :: l.nic in nics
    ensures IsKernelPick(t.routes, nics, x, KernelRoute(nics[k.nic], k.cidr)) <==> IsKernelChoice(t.record, x, k)
  {
    var r := KernelRoute(nics[k.nic], k.cidr);
    assert RouteKey(k.nic, k.cidr) == k;
    if IsKernelPick(t.routes, nics, x, r) {
      forall l | l in t.record && ContainsAddr(l.cidr, x)
        ensures l.cidr.prefixLen <= k.cidr.prefixLen
      {
        assert RouteKey(l.nic, l.cidr) == l;
        assert KernelRoute(nics[l.nic], l.cidr) in t.routes;
      }
    }
    if IsKernelChoice(t.record, x, k) {
      forall o | o in t.routes && IsOurs(o, nics) && ContainsAddr(o.cidr, x)
        ensures o.cidr.prefixLen <= k.cidr.prefixLen
      {
        var nic :| nic in nics && nics[nic] == o.ifindex;
        assert KernelRoute(nics[nic], o.cidr) == o;
        assert RouteKey(nic, o.cidr) in t.record;
      }
    }
  }
}
