/** The text form of a PeerInfo: seven comma-separated fields, addresses joined by bars. */
module PeerText {
  import opened Wrappers
  import opened Text
  import opened Cidrs
  import opened HostInfos

  /** How a library prints and parses one kind of value. */
  datatype Codec<!T> = Codec(show: T -> string, parse: string -> Option<T>)

  /** What printed values never contain, and that parsing undoes printing. */
  ghost predicate Lawful<T(!new)>(c: Codec<T>) {
    forall x: T :: c.parse(c.show(x)) == Some(x) && c.show(x) != "" && ',' !in c.show(x) && '|' !in c.show(x)
  }

  /** The codecs of IP addresses, hyphenated network ids and socket addresses. */
  datatype Codecs = Codecs(ip: Codec<IpAddr>, network: Codec<NetworkId>, addr: Codec<SocketAddr>)

  ghost predicate AllLawful(c: Codecs) {
    Lawful(c.ip) && Lawful(c.network) && Lawful(c.addr)
  }

  // ---- fields ------------------------------------------------------------------------------------

  function ShowAll(c: Codecs, addrs: seq<SocketAddr>): (r: seq<string>)
    ensures |r| == |addrs| && forall i | 0 <= i < |r| :: r[i] == c.addr.show(addrs[i])
  {
    if addrs == [] then [] else [c.addr.show(addrs[0])] + ShowAll(c, addrs[1..])
  }

  function ParseAll(c: Codecs, parts: seq<string>): Option<seq<SocketAddr>> {
    if parts == [] then Some([])
    else match (c.addr.parse(parts[0]), ParseAll(c, parts[1..]))
      case (Some(a), Some(rest)) => Some([a] + rest)
      case _ => None
  }

  function JoinAddrs(c: Codecs, addrs: seq<SocketAddr>): string {
    Join(ShowAll(c, addrs), '|')
  }

  /** The empty text is the empty list, which a split would not give. */
  function ParseAddrs(c: Codecs, s: string): Option<seq<SocketAddr>> {
    if s == "" then Some([]) else ParseAll(c, Split(s, '|'))
  }

  function ShowNatAddr(c: Codecs, a: Option<SocketAddr>): string {
    match a case None => "" case Some(addr) => c.addr.show(addr)
  }

  function ParseNatAddr(c: Codecs, s: string): Option<Option<SocketAddr>> {
    if s == "" then Some(None)
    else match c.addr.parse(s)
      case None => None
      case Some(a) => Some(Some(a))
  }

  function ShowNatType(t: NatType): string {
    if t == Symmetric then "0" else "1"
  }

  function ParseNatType(s: string): Option<NatType> {
    match ParseUnsigned(s, 0x100)
    case Some(0) => Some(Symmetric)
    case Some(1) => Some(Other)
    case _ => None
  }

  // ---- entries -------------------------------------------------------------------------------------

  const U64_LIMIT: nat := 0x1_0000_0000_0000_0000

  function Fields(c: Codecs, p: PeerInfo): seq<string> {
    [ShowNat(p.peerId), c.ip.show(p.noeioIp), c.network.show(p.network), ShowNatType(p.natType),
     ShowNatAddr(c, p.natAddr), JoinAddrs(c, p.localAddrs), ShowNat(p.version)]
  }

  function ShowPeer(c: Codecs, p: PeerInfo): string {
    Join(Fields(c, p), ',')
  }

  /** The last two fields may be missing: no LAN addresses, version 0. */
  function ParseFields(c: Codecs, f: seq<string>): Option<PeerInfo> {
    if |f| < 5 then None
    else
      match (ParseUnsigned(if |f| > 6 then f[6] else "0", U64_LIMIT), ParseUnsigned(f[0], 0x1_0000_0000),
             c.ip.parse(f[1]), ParseNatType(f[3]), ParseNatAddr(c, f[4]),
             ParseAddrs(c, if |f| > 5 then f[5] else ""), c.network.parse(f[2]))
      case (Some(version), Some(id), Some(ip), Some(natType), Some(natAddr), Some(locals), Some(network)) =>
        Some(PeerInfo(version, id, ip, network, natType, natAddr, locals, [], false))
      case _ => None
  }

  function ParsePeer(c: Codecs, entry: string): Option<PeerInfo> {
    ParseFields(c, SplitN(entry, 7, ','))
  }

  // ---- parsing undoes printing ------------------------------------------------------------------------

  lemma {:induction false} ParseShowAll(c: Codecs, addrs: seq<SocketAddr>)
    requires Lawful(c.addr)
    ensures ParseAll(c, ShowAll(c, addrs)) == Some(addrs)
  {
    if addrs != [] {
      ParseShowAll(c, addrs[1..]);
      var first := c.addr.show(addrs[0]);
      assert c.addr.parse(first) == Some(addrs[0]);
      assert ShowAll(c, addrs) == [first] + ShowAll(c, addrs[1..]);
      assert ([first] + ShowAll(c, addrs[1..]))[1..] == ShowAll(c, addrs[1..]);
      assert [addrs[0]] + addrs[1..] == addrs;
    }
  }

  lemma ParseJoinAddrs(c: Codecs, addrs: seq<SocketAddr>)
    requires Lawful(c.addr)
    ensures ParseAddrs(c, JoinAddrs(c, addrs)) == Some(addrs)
    ensures ',' !in JoinAddrs(c, addrs)
  {
    var parts := ShowAll(c, addrs);
    JoinAvoids(parts, '|', ',');
    if addrs != [] {
      SplitJoin(parts, '|');
      ParseShowAll(c, addrs);
      assert parts[0] != "" && JoinAddrs(c, addrs) != "";
    }
  }

  lemma ParseShowNatType(t: NatType)
    ensures ParseNatType(ShowNatType(t)) == Some(t) && ',' !in ShowNatType(t)
  {
  }

  lemma FieldsAreFree(c: Codecs, p: PeerInfo)
    requires AllLawful(c)
    ensures Free(Fields(c, p), ',')
  {
    ParseJoinAddrs(c, p.localAddrs);
    ParseShowNatType(p.natType);
    assert forall n: nat :: ',' !in ShowNat(n);
  }

  lemma ParseShowFields(c: Codecs, p: PeerInfo)
    requires AllLawful(c) && p.version < U64_LIMIT
    ensures ParseFields(c, Fields(c, p)) == Some(p.(advertisedRoutes := [], withdrawn := false))
  {
    ParseJoinAddrs(c, p.localAddrs);
    ParseShowNatType(p.natType);
    ParseShowUnsigned(p.peerId, 0x1_0000_0000);
    ParseShowUnsigned(p.version, U64_LIMIT);
    assert c.ip.parse(c.ip.show(p.noeioIp)) == Some(p.noeioIp);
    assert c.network.parse(c.network.show(p.network)) == Some(p.network);
    assert ParseNatAddr(c, ShowNatAddr(c, p.natAddr)) == Some(p.natAddr);
  }

  /** What is parsed back lacks the routes and the flag, so it is the same value iff there were no routes and the flag was off. */
  lemma PeerRoundTripIff(c: Codecs, p: PeerInfo)
    requires AllLawful(c) && p.version < U64_LIMIT
    ensures ParsePeer(c, ShowPeer(c, p)) == Some(p.(advertisedRoutes := [], withdrawn := false))
    ensures ParsePeer(c, ShowPeer(c, p)) == Some(p) <==> p.advertisedRoutes == [] && !p.withdrawn
  {
    FieldsAreFree(c, p);
    SplitNJoin(Fields(c, p), 7, ',');
    ParseShowFields(c, p);
  }

  lemma HeadParses(c: Codecs, p: PeerInfo, n: nat)
    requires AllLawful(c) && p.version < U64_LIMIT && n <= 7
    ensures ParseFields(c, Fields(c, p)[..n]) ==
            if n < 5 then None
            else Some(p.(version := if n < 7 then 0 else p.version, localAddrs := if n < 6 then [] else p.localAddrs,
                         advertisedRoutes := [], withdrawn := false))
  {
    var f := Fields(c, p);
    ParseShowNatType(p.natType);
    ParseShowUnsigned(p.peerId, 0x1_0000_0000);
    ParseShowUnsigned(0, U64_LIMIT);
    ParseShowUnsigned(p.version, U64_LIMIT);
    ParseJoinAddrs(c, p.localAddrs);
    assert ShowNat(0) == "0";
    assert forall i | 0 <= i < n :: f[..n][i] == f[i];
    assert c.ip.parse(c.ip.show(p.noeioIp)) == Some(p.noeioIp);
    assert c.network.parse(c.network.show(p.network)) == Some(p.network);
    assert ParseNatAddr(c, ShowNatAddr(c, p.natAddr)) == Some(p.natAddr);
  }

  /** An entry may lack its last field, the version, or its last two, without LAN addresses then; with fewer it is no entry. */
  lemma LegacyEntryParses(c: Codecs, p: PeerInfo, n: nat)
    requires AllLawful(c) && p.version < U64_LIMIT && 1 <= n <= 7
    ensures ParsePeer(c, Join(Fields(c, p)[..n], ',')) ==
            if n < 5 then None
            else Some(p.(version := if n < 7 then 0 else p.version, localAddrs := if n < 6 then [] else p.localAddrs,
                         advertisedRoutes := [], withdrawn := false))
  {
    FieldsAreFree(c, p);
    FreePrefix(Fields(c, p), n, ',');
    SplitNJoin(Fields(c, p)[..n], 7, ',');
    HeadParses(c, p, n);
  }

  lemma FreePrefix(parts: seq<string>, n: nat, sep: char)
    requires n <= |parts| && Free(parts, sep)
    ensures Free(parts[..n], sep)
  {
  }
}
