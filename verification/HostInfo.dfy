/** What a host reports about itself and what the relay broadcasts about each peer. */
module HostInfos {
  import opened Wrappers
  import opened Cidrs

  type PeerId = x: int | 0 <= x < 0x1_0000_0000

  /** A network's 128-bit identifier; only equality matters. */
  type NetworkId = nat

  datatype SocketAddr = SocketAddr(ip: IpAddr, port: nat)

  datatype NatType = Symmetric | Other

  datatype PeerInfo = PeerInfo(
    version: nat,
    peerId: PeerId,
    noeioIp: IpAddr,
    network: NetworkId,
    natType: NatType,
    natAddr: Option<SocketAddr>,
    localAddrs: seq<SocketAddr>,
    advertisedRoutes: seq<Cidr>,
    withdrawn: bool)

  datatype HostInfo = HostInfo(
    version: nat,
    natAddr: SocketAddr,
    natType: NatType,
    hostname: string,
    localAddrs: seq<SocketAddr>,
    peers: seq<PeerInfo>)
}
