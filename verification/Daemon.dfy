/** The node: SyncRoutes fold into the router, and every pass carries the router's answer into the kernel. */
module Daemon {
  import opened Wrappers
  import opened Cidrs
  import opened HostInfos
  import opened RoutePolicy
  import opened RouteTable
  import opened StateFile
  import opened KernelMirror
  import opened CleanPasses
  import opened Reconcilers
  import opened RouteAgreement
  import opened Peers
  import opened Routers
  import R = RouterState

  /** A registered virtual nic: our id in its network, its overlay address and its interface index. */
  datatype Nic = Nic(id: PeerId, ip: IpAddr, ifindex: nat)

  function Ids(nics: seq<Nic>): set<PeerId> {
    set n | n in nics :: n.id
  }

  function OverlayIps(nics: seq<Nic>): (ips: seq<IpAddr>)
    ensures forall ip :: ip in ips <==> exists n | n in nics :: n.ip == ip
  {
    if nics == [] then [] else [nics[0].ip] + OverlayIps(nics[1..])
  }

  predicate UniqueIds(nics: seq<Nic>) {
    forall i, j | 0 <= i < j < |nics| :: nics[i].id != nics[j].id
  }

  /** The interface of every registered nic. */
  function Indexes(nics: seq<Nic>): (m: map<PeerId, nat>)
    ensures m.Keys == Ids(nics)
    ensures UniqueIds(nics) ==> forall n | n in nics :: m[n.id] == n.ifindex
  {
    if nics == [] then map[] else Indexes(nics[1..])[nics[0].id := nics[0].ifindex]
  }

  class NoeioDaemon {
    const router: Router
    const reconciler: Reconciler
    const kernel: Kernel
    const acceptRoutes: bool
    const controlPlane: seq<IpAddr>
    var nics: seq<Nic>
    /** The subnets the physical interfaces sit on. */
    var localLans: seq<Cidr>
    var advertised: seq<Cidr>
    var hostInfo: Option<HostInfo>
    var decisions: seq<Decision>

    constructor (acceptRoutes: bool, controlPlane: seq<IpAddr>, stateFile: Option<string>, kernel: Kernel)
      ensures router.Valid() && router.state == R.EMPTY && reconciler.installed == {} && reconciler.persists && reconciler.file == stateFile && this.kernel == kernel
      ensures this.acceptRoutes == acceptRoutes && this.controlPlane == controlPlane
      ensures nics == [] && localLans == [] && advertised == [] && hostInfo == None && decisions == []
      ensures fresh(router) && fresh(reconciler)
    {
      this.acceptRoutes, this.controlPlane, this.kernel := acceptRoutes, controlPlane, kernel;
      router := new Router();
      reconciler := new Reconciler(true, stateFile);
      nics, localLans, advertised, hostInfo, decisions := [], [], [], None, [];
    }

    function Policy(): ConsumerPolicy
      reads this
    {
      ConsumerPolicy(acceptRoutes, localLans, advertised,
                     Protected(OverlayIps(nics), controlPlane))
    }

    /** What this node must keep reaching without a tunnel: its LANs, what it advertises itself, its overlay addresses, its servers, and the reserved ranges. */
    ghost predicate KeepsOff(x: Addr)
      reads this
    {
      || (exists lan | lan in localLans :: ContainsAddr(lan, x))
      || (exists own | own in advertised :: ContainsAddr(own, x))
      || (exists n | n in nics :: n.ip == V4(x))
      || V4(x) in controlPlane
      || x / 0x100_0000 == 127
      || x / 0x1_0000 == 0xA9FE
    }

    /**
     Which entries this node's table is to hold: if it accepts routes, each prefix
     of length 8 or more that holds no address it keeps off, with the lowest stored
     peer that advertises it; otherwise none.
     */
    ghost predicate Installs(s: R.State, t: Entry)
      reads this
    {
      && acceptRoutes
      && IsLowestAdvertiser(s, t)
      && t.cidr.prefixLen >= 8
      && forall x: Addr | ContainsAddr(t.cidr, x) :: !KeepsOff(x)
    }

    lemma PolicyInstalls(s: R.State)
      requires IsRefreshed(s, Policy())
      ensures forall t: Entry :: t in s.subnets <==> Installs(s, t)
      ensures !acceptRoutes ==> s.subnets == []
    {
      forall x: Addr
        ensures IsProtected(Policy(), x) <==> KeepsOff(x)
      {
        ReservedMembers(x);
      }
      forall t: Entry
        ensures t in s.subnets <==> Installs(s, t)
      {
        TableMeaning(s, Policy(), t);
      }
      assert s.subnets != [] ==> s.subnets[0] in s.subnets;
    }

    /** Afterwards the router is its old value with this message applied; the answer is whether the message had an effect. */
    method ApplySyncRoute(info: PeerInfo, localPeerId: PeerId) returns (changed: bool)
      requires router.Valid()
      modifies router, router.peers.Values
      ensures router.Valid()
      ensures router.state == R.ApplySyncRoute(old(router.state), info, localPeerId)
      ensures changed == R.Applies(old(router.state), info)
    {
      if info.withdrawn {
        changed := router.RemoveByPeerId(info.peerId);
      } else if info.noeioIp in router.peers {
        var existing := router.peers[info.noeioIp];
        changed := info.version > existing.info.version;
        if changed {
          router.UpdateInfo(existing, info, localPeerId);
        }
      } else {
        changed := true;
        var peer := new Peer(info, localPeerId);
        router.Insert(peer);
      }
    }

    /** Every advertisement of every known peer. */
    method CollectAdverts() returns (adverts: seq<Advert>, ghost order: seq<R.PeerEntry>)
      requires router.Valid()
      ensures Lists(order, router.state) && adverts == AdvertsOf(order)
    {
      var peers := router.All();
      order, adverts := [], [];
      for i := 0 to |peers|
        invariant |order| == i && forall j | 0 <= j < i :: order[j] == EntryOf(peers[j])
        invariant adverts == AdvertsOf(order)
      {
        AdvertsExtend(order, EntryOf(peers[i]));
        adverts := PushAdverts(adverts, peers[i].info.peerId, peers[i].info.advertisedRoutes);
        order := order + [EntryOf(peers[i])];
      }
      EntriesAreListed(router, peers, order);
    }

    static method PushAdverts(before: seq<Advert>, id: PeerId, routes: seq<Cidr>) returns (adverts: seq<Advert>)
      ensures adverts == before + AdvertsBy(id, routes)
    {
      adverts := before;
      for j := 0 to |routes|
        invariant adverts + AdvertsBy(id, routes[j..]) == before + AdvertsBy(id, routes)
      {
        adverts := adverts + [Advert(id, routes[j])];
      }
    }

    /** Afterwards the subnet table is what the policy accepts from the peers now stored, and the decisions behind it are kept. */
    method RefreshSubnets()
      requires router.Valid()
      modifies router`subnets, router`state, this`decisions
      ensures router.Valid()
      ensures router.state == old(router.state).(subnets := router.subnets)
      ensures forall t: Entry :: t in router.subnets <==> Installs(router.state, t)
      ensures !acceptRoutes ==> router.subnets == []
      ensures IsRefreshed(router.state, Policy())
      ensures DecidedOver(decisions, router.state, Policy())
    {
      var adverts, order := CollectAdverts();
      ghost var policy, before := Policy(), router.state;
      var decided := Decide(Policy(), adverts);
      router.SetSubnets(Accepted(decided));
      ghost var after := router.state;
      RefreshedBy(before, after, policy, order, decided);
      decisions := decided;
      PolicyInstalls(router.state);
    }

    /** One entry per stored peer, with the table's prefixes that name it as exit. */
    method RouteSnapshot() returns (routes: seq<PeerRoutes>, ghost order: seq<R.PeerEntry>)
      requires router.Valid()
      ensures Lists(order, router.state) && routes == Snapshot(router.state, order)
    {
      var peers := router.All();
      order, routes := [], [];
      for i := 0 to |peers|
        invariant |order| == |routes| == i && forall j | 0 <= j < i :: order[j] == EntryOf(peers[j])
        invariant forall j | 0 <= j < i :: routes[j] == RoutesOf(router.state, order[j])
      {
        var info := peers[i].info;
        routes := routes + [PeerRoutes(peers[i].localPeerId, info.peerId, info.noeioIp, SubnetsOf(router.subnets, info.peerId))];
        order := order + [EntryOf(peers[i])];
      }
      EntriesAreListed(router, peers, order);
    }

    /** What the routes should be, from the freshly decided table. */
    method PlanRoutes() returns (desired: set<RouteKey>)
      requires router.Valid()
      modifies router`subnets, router`state, this`decisions
      ensures router.Valid() && router.state == old(router.state).(subnets := router.subnets)
      ensures IsRefreshed(router.state, Policy())
      ensures IsPlan(router.state, nics, desired)
    {
      RefreshSubnets();
      var routes, order := RouteSnapshot();
      desired := Desired(Ids(nics), routes);
      DesiredNicsKnown(Ids(nics), routes);
      ghost var s := router.state;
      if R.IndexExact(s) && AllNicsKnown(s, Ids(nics)) {
        GoalAgrees(s, Policy(), Ids(nics), order);
      }
    }

    /** Run one pass toward `desired`; the router has no part in it. */
    method RunPass(desired: set<RouteKey>) returns (changed: nat)
      modifies reconciler, kernel
      ensures PassOutcome(old(reconciler.Now(kernel)), reconciler.Now(kernel), desired, Indexes(nics), changed,
                          kernel.failures == old(kernel.failures))
      ensures router.Valid() == old(router.Valid())
    {
      changed := reconciler.Reconcile(desired, Indexes(nics), kernel);
    }

    /** Plan and run one pass; if no kernel call fails, it reaches agreement with the lookup. */
    method ReconcileRoutes() returns (changed: nat)
      requires router.Valid()
      modifies router`subnets, router`state, this`decisions, reconciler, kernel
      ensures router.Valid() && router.state == old(router.state).(subnets := router.subnets)
      ensures IsRefreshed(router.state, Policy())
      ensures forall t: Entry :: t in router.subnets <==> Installs(router.state, t)
      ensures kernel.failures == old(kernel.failures) ==>
                ReachesAgreement(router.state, nics, old(reconciler.Now(kernel)), reconciler.Now(kernel))
    {
      ghost var start := reconciler.Now(kernel);
      var desired := PlanRoutes();
      changed := RunPass(desired);
      PolicyInstalls(router.state);
      if kernel.failures == old(kernel.failures) {
        PassReachesAgreement(router.state, nics, desired, start, reconciler.Now(kernel), changed);
      }
    }

    /**
     Replace the advertised set; every local PeerInfo gets it and the host
     version strictly rises, so no relay takes the next report for a duplicate.
     */
    method SetAdvertised(routes: seq<Cidr>, nowVersion: nat)
      modifies this`advertised, this`hostInfo
      ensures advertised == routes
      ensures old(advertised) == routes || hostInfo.None? ==> hostInfo == old(hostInfo)
      ensures hostInfo.Some? <==> old(hostInfo).Some?
      ensures old(advertised) != routes && hostInfo.Some? ==>
                var before, after := old(hostInfo).value, hostInfo.value;
                && after.version > before.version && after.version >= nowVersion
                && |after.peers| == |before.peers|
                && after == before.(version := after.version, peers := after.peers)
                && forall i | 0 <= i < |after.peers| :: after.peers[i] == before.peers[i].(advertisedRoutes := routes)
    {
      if advertised == routes {
        return;
      }
      advertised := routes;
      if hostInfo.Some? {
        var host := hostInfo.value;
        var peers := host.peers;
        for i := 0 to |peers|
          invariant |peers| == |host.peers|
          invariant forall j | 0 <= j < |peers| ::
                      peers[j] == if j < i then host.peers[j].(advertisedRoutes := routes) else host.peers[j]
        {
          peers := peers[i := peers[i].(advertisedRoutes := routes)];
        }
        var version := if nowVersion > host.version + 1 then nowVersion else host.version + 1;
        hostInfo := Some(host.(peers := peers, version := version));
      }
    }
  }

  lemma EntriesAreListed(router: Router, peers: seq<Peer>, order: seq<R.PeerEntry>)
    requires router.Valid()
    requires forall p :: p in peers <==> p in router.peers.Values
    requires |order| == |peers| && forall i | 0 <= i < |peers| :: order[i] == EntryOf(peers[i])
    ensures Lists(order, router.state)
  {
    var s := router.state;
    forall e | e in order
      ensures e in s.peers.Values
    {
      var i :| 0 <= i < |order| && order[i] == e;
      assert peers[i] in peers;
      assert peers[i] in router.peers.Values;
      var ip :| ip in router.peers && router.peers[ip] == peers[i];
      assert s.peers[ip] == e;
    }
    forall e | e in s.peers.Values
      ensures e in order
    {
      var ip :| ip in s.peers && s.peers[ip] == e;
      assert router.peers[ip] in router.peers.Values;
      assert router.peers[ip] in peers;
      var i :| 0 <= i < |peers| && peers[i] == router.peers[ip];
      assert order[i] == e;
    }
  }

  /** The decisions are those over the stored peers' advertisements, in some listing order. */
  ghost predicate DecidedOver(decisions: seq<Decision>, s: R.State, policy: ConsumerPolicy) {
    exists order :: Lists(order, s) && decisions == Decisions(policy, AdvertsOf(order))
  }

  lemma RefreshedBy(before: R.State, after: R.State, policy: ConsumerPolicy, order: seq<R.PeerEntry>, decided: seq<Decision>)
    requires Lists(order, before) && decided == Decisions(policy, AdvertsOf(order))
    requires after == before.(subnets := Canonical(Accepted(decided)))
    ensures IsRefreshed(after, policy) && DecidedOver(decided, after, policy)
  {
  }

  lemma DesiredNicsKnown(nics: set<PeerId>, routes: seq<PeerRoutes>)
    ensures forall k | k in DesiredRoutes(nics, routes) :: k.nic in nics
  {
  }

  /** Only registered nics are planned for; with unique ids and every peer's nic registered, the plan agrees with the lookup. */
  ghost predicate IsPlan(s: R.State, nics: seq<Nic>, desired: set<RouteKey>) {
    && (forall k | k in desired :: k.nic in Ids(nics))
    && (R.IndexExact(s) && AllNicsKnown(s, Ids(nics)) ==> Agree(s, desired))
  }

  /**
   With unique ids and every peer's nic registered, the record agrees with the
   lookup; and so does the kernel itself, if the pass began in step with it and
   from a clean start.
   */
  ghost predicate ReachesAgreement(s: R.State, nics: seq<Nic>, start: Tables, end: Tables) {
    var interfaces := Indexes(nics);
    R.IndexExact(s) && AllNicsKnown(s, Ids(nics)) ==>
      && Agree(s, end.record)
      && (Injective(interfaces) && Mirrors(start, interfaces) && CleanStart(start, end.record, interfaces) ==>
            KernelAgrees(s, end.routes, interfaces))
  }

  lemma PassReachesAgreement(s: R.State, nics: seq<Nic>, desired: set<RouteKey>, start: Tables, end: Tables, changed: nat)
    requires IsPlan(s, nics, desired) && PassOutcome(start, end, desired, Indexes(nics), changed, true)
    ensures ReachesAgreement(s, nics, start, end)
  {
    var interfaces := Indexes(nics);
    if R.IndexExact(s) && AllNicsKnown(s, Ids(nics)) && Injective(interfaces)
       && Mirrors(start, interfaces) && CleanStart(start, desired, interfaces) {
      MirroredKernelAgrees(s, end, interfaces);
    }
  }
}
