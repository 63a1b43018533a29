/**
 Subnet-route policy: the shared blacklist, and which advertised routes a
 consumer installs.
 */
module RoutePolicy {
  import opened Wrappers
  import opened Bits
  import opened Cidrs
  import opened HostInfos

  const MIN_PREFIX_LEN := 8

  /** 127.0.0.0/8, section 3.2.1.3 of RFC 1122 */
  const LOOPBACK: Cidr := Cidr(0x7F00_0000, 8)

  /** 169.254.0.0/16, section 2.1 of RFC 3927 */
  const LINK_LOCAL: Cidr := Cidr(0xA9FE_0000, 16)

  const LOCALHOST: Addr := 0x7F00_0001

  datatype RouteError =
    | TooBroad(cidr: Cidr)
    | Reserved(cidr: Cidr)
    | OverlapsOverlay(cidr: Cidr, overlay: IpAddr)
    | CoversControlPlane(cidr: Cidr, addr: IpAddr)

  /** Addresses a prefix must not swallow. */
  datatype Protected = Protected(overlayIps: seq<IpAddr>, controlPlane: seq<IpAddr>)

  // ---- the blacklist ----------------------------------------------------------

  predicate IsLoopback(a: Addr) { a / 0x100_0000 == 127 }

  predicate IsLinkLocal(a: Addr) { a / 0x1_0000 == 0xA9FE }

  predicate IsReserved(cidr: Cidr) {
    || IsLoopback(cidr.address)
    || IsLinkLocal(cidr.address)
    || ContainsAddr(cidr, LOCALHOST)
    || ContainsAddr(cidr, LINK_LOCAL.address)
  }

  predicate Covers(cidr: Cidr, ip: IpAddr) {
    ip.V4? && ContainsAddr(cidr, ip.v4)
  }

  /** The first listed address that `cidr` covers. */
  function FirstCovered(cidr: Cidr, ips: seq<IpAddr>): (r: Option<IpAddr>)
    ensures r.None? <==> forall ip | ip in ips :: !Covers(cidr, ip)
    ensures r.Some? ==> r.value in ips && Covers(cidr, r.value)
  {
    if ips == [] then None
    else if Covers(cidr, ips[0]) then Some(ips[0])
    else FirstCovered(cidr, ips[1..])
  }

  function Validate(cidr: Cidr, protected: Protected): Result<(), RouteError> {
    if cidr.prefixLen < MIN_PREFIX_LEN then Err(TooBroad(cidr))
    else if IsReserved(cidr) then Err(Reserved(cidr))
    else match FirstCovered(cidr, protected.overlayIps)
      case Some(ip) => Err(OverlapsOverlay(cidr, ip))
      case None =>
        match FirstCovered(cidr, protected.controlPlane)
        case Some(ip) => Err(CoversControlPlane(cidr, ip))
        case None => Ok(())
  }

  method ValidateCidr(cidr: Cidr, protected: Protected) returns (r: Result<(), RouteError>)
    ensures r == Validate(cidr, protected)
  {
    if cidr.prefixLen < MIN_PREFIX_LEN {
      return Err(TooBroad(cidr));
    }
    if IsReserved(cidr) {
      return Err(Reserved(cidr));
    }
    for i := 0 to |protected.overlayIps|
      invariant FirstCovered(cidr, protected.overlayIps) == FirstCovered(cidr, protected.overlayIps[i..])
    {
      if Covers(cidr, protected.overlayIps[i]) {
        return Err(OverlapsOverlay(cidr, protected.overlayIps[i]));
      }
    }
    for i := 0 to |protected.controlPlane|
      invariant FirstCovered(cidr, protected.controlPlane) == FirstCovered(cidr, protected.controlPlane[i..])
    {
      if Covers(cidr, protected.controlPlane[i]) {
        return Err(CoversControlPlane(cidr, protected.controlPlane[i]));
      }
    }
    return Ok(());
  }

  lemma {:induction false} ReservedMembers(a: Addr)
    ensures IsLoopback(a) <==> ContainsAddr(LOOPBACK, a)
    ensures IsLinkLocal(a) <==> ContainsAddr(LINK_LOCAL, a)
  {
    Pow2Word();
    ContainsIsRange(LOOPBACK, a);
    ContainsIsRange(LINK_LOCAL, a);
    ShlIsProduct(0x7F, 24);
    ShlIsProduct(0xA9FE, 16);
    ClearLowOfShl(0x7F, 24);
    ClearLowOfShl(0xA9FE, 16);
  }

  /** The four point tests together decide whether a /8-or-longer prefix meets a reserved range. */
  lemma ReservedIsOverlap(cidr: Cidr)
    requires cidr.prefixLen >= MIN_PREFIX_LEN
    ensures IsReserved(cidr) <==> Overlaps(cidr, LOOPBACK) || Overlaps(cidr, LINK_LOCAL)
  {
    ReservedMembers(cidr.address);
    ReservedMembers(LOCALHOST);
    ReservedMembers(LINK_LOCAL.address);
    OverlapsIffShared(cidr, LOOPBACK);
    OverlapsIffShared(cidr, LINK_LOCAL);
    if ContainsSubnet(cidr, LOOPBACK) {
      assert ContainsAddr(LOOPBACK, cidr.address);
    }
    assert ContainsAddr(cidr, cidr.address);
  }

  // ---- the consumer's decision ---------------------------------------------------

  datatype Rejection = Invalid | LocalLan | SelfAdvertised | Standby | PolicyOff

  datatype Advert = Advert(peerId: PeerId, cidr: Cidr)

  datatype Decision = Decision(cidr: Cidr, peerId: PeerId, rejected: Option<Rejection>)

  datatype ConsumerPolicy = ConsumerPolicy(
    acceptRoutes: bool,
    localLans: seq<Cidr>,
    selfAdvertised: seq<Cidr>,
    protected: Protected)

  /** The rules that look at the prefix alone, in priority order. */
  function PrefixRule(policy: ConsumerPolicy, cidr: Cidr): Option<Rejection> {
    if exists lan | lan in policy.localLans :: Overlaps(lan, cidr) then Some(LocalLan)
    else if exists own | own in policy.selfAdvertised :: Overlaps(own, cidr) then Some(SelfAdvertised)
    else if Validate(cidr, policy.protected).Err? then Some(Invalid)
    else None
  }

  function Advertisers(adverts: seq<Advert>, cidr: Cidr): set<PeerId> {
    set a | a in adverts && Network(a.cidr) == cidr :: a.peerId
  }

  /** Whether `id` is the lowest advertiser of `cidr`. */
  predicate IsPrimary(adverts: seq<Advert>, cidr: Cidr, id: PeerId) {
    IsLowest(Advertisers(adverts, cidr), id)
  }

  predicate IsLowest(ids: set<PeerId>, id: PeerId) {
    id in ids && forall other | other in ids :: id <= other
  }

  function DecisionFor(policy: ConsumerPolicy, adverts: seq<Advert>, a: Advert): Decision {
    if !policy.acceptRoutes then Decision(a.cidr, a.peerId, Some(PolicyOff))
    else
      var cidr := Network(a.cidr);
      var rule := PrefixRule(policy, cidr);
      Decision(cidr, a.peerId,
               if rule.Some? then rule
               else if IsPrimary(adverts, cidr, a.peerId) then None
               else Some(Standby))
  }

  /** Every advertised prefix is mapped to its lowest advertiser, and no other prefix is. */
  method ElectPrimaries(adverts: seq<Advert>) returns (active: map<Cidr, PeerId>)
    ensures forall a | a in adverts :: Network(a.cidr) in active
    ensures forall c | c in active :: IsPrimary(adverts, c, active[c])
  {
    active := map[];
    for i := 0 to |adverts|
      invariant forall a | a in adverts[..i] :: Network(a.cidr) in active
      invariant forall c | c in active :: IsPrimary(adverts[..i], c, active[c])
    {
      var c, id := Network(adverts[i].cidr), adverts[i].peerId;
      AdvertisersExtend(adverts, i);
      if c !in active {
        assert Advertisers(adverts[..i], c) == {};
      }
      active := active[c := if c in active && active[c] <= id then active[c] else id];
      assert adverts[..i + 1] == adverts[..i] + [adverts[i]];
    }
    assert adverts[..|adverts|] == adverts;
  }

  function Decisions(policy: ConsumerPolicy, adverts: seq<Advert>): seq<Decision> {
    seq(|adverts|, i requires 0 <= i < |adverts| => DecisionFor(policy, adverts, adverts[i]))
  }

  method Decide(policy: ConsumerPolicy, adverts: seq<Advert>) returns (decisions: seq<Decision>)
    ensures decisions == Decisions(policy, adverts)
  {
    decisions := [];
    if !policy.acceptRoutes {
      for i := 0 to |adverts|
        invariant |decisions| == i
        invariant forall j | 0 <= j < i :: decisions[j] == DecisionFor(policy, adverts, adverts[j])
      {
        decisions := decisions + [Decision(adverts[i].cidr, adverts[i].peerId, Some(PolicyOff))];
      }
      return;
    }

    var active := ElectPrimaries(adverts);
    for i := 0 to |adverts|
      invariant |decisions| == i
      invariant forall j | 0 <= j < i :: decisions[j] == DecisionFor(policy, adverts, adverts[j])
    {
      var cidr, id := Network(adverts[i].cidr), adverts[i].peerId;
      var rejected;
      if exists lan | lan in policy.localLans :: Overlaps(lan, cidr) {
        rejected := Some(LocalLan);
      } else if exists own | own in policy.selfAdvertised :: Overlaps(own, cidr) {
        rejected := Some(SelfAdvertised);
      } else {
        var valid := ValidateCidr(cidr, policy.protected);
        if valid.Err? {
          rejected := Some(Invalid);
        } else if active[cidr] != id {
          rejected := Some(Standby);
        } else {
          rejected := None;
        }
      }
      assert id in Advertisers(adverts, cidr);
      decisions := decisions + [Decision(cidr, id, rejected)];
    }
  }

  lemma AdvertisersExtend(adverts: seq<Advert>, i: nat)
    requires i < |adverts|
    ensures forall c: Cidr :: Advertisers(adverts[..i + 1], c) ==
              Advertisers(adverts[..i], c) + if c == Network(adverts[i].cidr) then {adverts[i].peerId} else {}
  {
  }

  // ---- accepted prefixes are disjoint from everything protected ---------------------

  /** Addresses this node must keep reaching without the tunnel. */
  ghost predicate IsProtected(policy: ConsumerPolicy, x: Addr) {
    || (exists lan | lan in policy.localLans :: ContainsAddr(lan, x))
    || (exists own | own in policy.selfAdvertised :: ContainsAddr(own, x))
    || ContainsAddr(LOOPBACK, x)
    || ContainsAddr(LINK_LOCAL, x)
    || V4(x) in policy.protected.overlayIps
    || V4(x) in policy.protected.controlPlane
  }

  /** The prefix-wide rules pass exactly the prefixes of length 8 or more that hold no protected address. */
  lemma RulePassesIffUnprotected(policy: ConsumerPolicy, cidr: Cidr)
    ensures PrefixRule(policy, cidr).None? <==>
            && cidr.prefixLen >= MIN_PREFIX_LEN
            && forall x: Addr | ContainsAddr(cidr, x) :: !IsProtected(policy, x)
  {
    forall c: Cidr
      ensures Overlaps(c, cidr) <==> ShareAnAddress(c, cidr)
    {
      OverlapsIffShared(c, cidr);
    }
    if cidr.prefixLen >= MIN_PREFIX_LEN {
      ReservedIsOverlap(cidr);
      OverlapsSymmetricAndNormal(cidr, LOOPBACK);
      OverlapsSymmetricAndNormal(cidr, LINK_LOCAL);
      forall ip | ip in policy.protected.overlayIps + policy.protected.controlPlane && Covers(cidr, ip)
        ensures IsProtected(policy, ip.v4) && ContainsAddr(cidr, ip.v4)
      {
        assert V4(ip.v4) == ip;
      }
      if PrefixRule(policy, cidr).None? {
        forall x: Addr | ContainsAddr(cidr, x)
          ensures !IsProtected(policy, x)
        {
          assert Covers(cidr, V4(x));
        }
      }
      assert Validate(cidr, policy.protected).Ok? <==>
        !IsReserved(cidr)
        && (forall ip | ip in policy.protected.overlayIps :: !Covers(cidr, ip))
        && (forall ip | ip in policy.protected.controlPlane :: !Covers(cidr, ip));
    }
  }

  /** No address of an accepted prefix is local, self-advertised, reserved, an own overlay address or a control-plane server. */
  lemma AcceptedHoldsNothingProtected(policy: ConsumerPolicy, adverts: seq<Advert>, a: Advert, x: Addr)
    requires a in adverts
    requires DecisionFor(policy, adverts, a).rejected.None?
    requires ContainsAddr(a.cidr, x)
    ensures a.cidr.prefixLen >= MIN_PREFIX_LEN && !IsProtected(policy, x)
  {
    RulePassesIffUnprotected(policy, Network(a.cidr));
    NetworkKeepsMembers(a.cidr, x);
  }

  ghost predicate SharesWithAny(cidrs: seq<Cidr>, cidr: Cidr) {
    exists c | c in cidrs :: ShareAnAddress(c, cidr)
  }

  /**
   The reason of every rejection, and the prefix it is reported for: routes are
   off; or else the first that applies of an address shared with a LAN, one shared
   with an own advertisement, a length below 8 or a reserved or protected address,
   and a lower advertiser.
   */
  lemma ReasonMeaning(policy: ConsumerPolicy, adverts: seq<Advert>, a: Advert)
    requires a in adverts
    ensures var d, cidr := DecisionFor(policy, adverts, a), Network(a.cidr);
            && d.peerId == a.peerId && d.cidr == (if policy.acceptRoutes then cidr else a.cidr)
            && (d.rejected == Some(PolicyOff) <==> !policy.acceptRoutes)
            && (policy.acceptRoutes ==>
                  && (d.rejected == Some(LocalLan) <==> SharesWithAny(policy.localLans, cidr))
                  && (d.rejected == Some(SelfAdvertised) <==>
                        SharesWithAny(policy.selfAdvertised, cidr) && !SharesWithAny(policy.localLans, cidr))
                  && (d.rejected == Some(Standby) ==> exists b | b in adverts :: Network(b.cidr) == cidr && b.peerId < a.peerId)
                  && (d.rejected == None ==> forall b | b in adverts && Network(b.cidr) == cidr :: a.peerId <= b.peerId)
                  && (d.rejected in {Some(Standby), None} <==>
                        cidr.prefixLen >= 8 && forall x: Addr | ContainsAddr(cidr, x) :: !IsProtected(policy, x)))
  {
    var cidr := Network(a.cidr);
    RulePassesIffUnprotected(policy, cidr);
    assert a.peerId in Advertisers(adverts, cidr);
    forall c
      ensures Overlaps(c, cidr) <==> ShareAnAddress(c, cidr)
    {
      OverlapsIffShared(c, cidr);
    }
    forall b | b in adverts && Network(b.cidr) == cidr
      ensures b.peerId in Advertisers(adverts, cidr)
    {
    }
  }

  // ---- exit election is total and local ----------------------------------------------

  lemma {:induction false} LowestExists(ids: set<PeerId>) returns (lowest: PeerId)
    requires ids != {}
    ensures IsLowest(ids, lowest)
    decreases |ids|
  {
    var one :| one in ids;
    lowest := one;
    var others := ids - {one};
    if others != {} {
      var low := LowestExists(others);
      lowest := if low < one then low else one;
    }
    assert forall id | id in ids :: id == one || id in others;
  }

  /** Either one prefix-wide rule rejects every advertiser, or exactly the lowest id is active and the rest stand by. */
  lemma ElectionIsTotal(policy: ConsumerPolicy, adverts: seq<Advert>, cidr: Cidr) returns (primary: PeerId)
    requires policy.acceptRoutes && Advertisers(adverts, cidr) != {}
    ensures IsPrimary(adverts, cidr, primary)
    ensures PrefixRule(policy, cidr) in {None, Some(LocalLan), Some(SelfAdvertised), Some(Invalid)}
    ensures forall a | a in adverts && Network(a.cidr) == cidr ::
              DecisionFor(policy, adverts, a) ==
              Decision(cidr, a.peerId,
                       if PrefixRule(policy, cidr).Some? then PrefixRule(policy, cidr)
                       else if a.peerId == primary then None
                       else Some(Standby))
  {
    primary := LowestExists(Advertisers(adverts, cidr));
  }

  function WithoutPeer(adverts: seq<Advert>, gone: PeerId): (r: seq<Advert>)
    ensures forall a :: a in r <==> a in adverts && a.peerId != gone
  {
    if adverts == [] then []
    else if adverts[0].peerId == gone then WithoutPeer(adverts[1..], gone)
    else [adverts[0]] + WithoutPeer(adverts[1..], gone)
  }

  lemma AdvertisersWithoutPeer(adverts: seq<Advert>, gone: PeerId, cidr: Cidr)
    ensures Advertisers(WithoutPeer(adverts, gone), cidr) == Advertisers(adverts, cidr) - {gone}
  {
  }

  /**
   Dropping one peer changes another peer's outcome exactly on the prefixes the
   dropped peer was active for, and only for the next-lowest advertiser, which
   goes from standby to active.
   */
  lemma DroppingAPeerIsLocal(policy: ConsumerPolicy, adverts: seq<Advert>, gone: PeerId, a: Advert)
    requires policy.acceptRoutes && a in adverts && a.peerId != gone
    ensures var before, after := DecisionFor(policy, adverts, a), DecisionFor(policy, WithoutPeer(adverts, gone), a);
            && (before != after <==> TakesOver(policy, adverts, gone, a))
            && (before != after ==> before.rejected == Some(Standby) && after.rejected == None)
  {
    var cidr := Network(a.cidr);
    assert a.peerId in Advertisers(adverts, cidr);
    AdvertisersWithoutPeer(adverts, gone, cidr);
    LowestWithout(Advertisers(adverts, cidr), gone, a.peerId);
  }

  /** `gone` is the active exit for the prefix of `a`, whose advertiser is the next-lowest id. */
  predicate TakesOver(policy: ConsumerPolicy, adverts: seq<Advert>, gone: PeerId, a: Advert) {
    && PrefixRule(policy, Network(a.cidr)).None?
    && IsPrimary(adverts, Network(a.cidr), gone)
    && IsLowest(Advertisers(adverts, Network(a.cidr)) - {gone}, a.peerId)
  }

  lemma LowestWithout(ids: set<PeerId>, gone: PeerId, id: PeerId)
    requires id in ids && id != gone
    ensures IsLowest(ids - {gone}, id) && !IsLowest(ids, id) <==> IsLowest(ids, gone) && IsLowest(ids - {gone}, id)
    ensures IsLowest(ids, id) ==> IsLowest(ids - {gone}, id)
  {
    if IsLowest(ids - {gone}, id) {
      assert forall other | other in ids :: other == gone || other in ids - {gone};
    }
  }
}
