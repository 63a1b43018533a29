/**
 IPv4 prefixes (RFC 4632 section 3.1): an address and a prefix length,
 compared by their top bits.
 */
module Cidrs {
  import opened Bits

  type Addr = x: int | 0 <= x < 0x1_0000_0000

  type PrefixLen = n: int | 0 <= n <= 32

  datatype IpAddr = V4(v4: Addr) | V6(v6: nat)

  datatype Cidr = Cidr(address: Addr, prefixLen: PrefixLen)

  function HostBits(c: Cidr): nat { 32 - c.prefixLen }

  predicate ContainsAddr(c: Cidr, a: Addr) {
    Shr(c.address, HostBits(c)) == Shr(a, HostBits(c))
  }

  function Network(c: Cidr): Cidr {
    Cidr(ClearLow(c.address, HostBits(c)), c.prefixLen)
  }

  predicate InNetworkForm(c: Cidr) { Network(c) == c }

  predicate ContainsSubnet(outer: Cidr, inner: Cidr) {
    outer.prefixLen <= inner.prefixLen && ContainsAddr(outer, inner.address)
  }

  /** One of the two lies inside the other. */
  predicate Overlaps(a: Cidr, b: Cidr) {
    ContainsSubnet(a, b) || ContainsSubnet(b, a)
  }

  ghost predicate ShareAnAddress(a: Cidr, b: Cidr) {
    exists x: Addr :: ContainsAddr(a, x) && ContainsAddr(b, x)
  }

  /** The top-bits test is membership in an address range that starts at the network address. */
  lemma ContainsIsRange(c: Cidr, a: Addr)
    ensures ContainsAddr(c, a) <==> Network(c).address <= a < Network(c).address + Pow2(HostBits(c))
  {
    ShrBlock(c.address, a, HostBits(c));
  }

  /** Clearing the host bits changes neither the members nor, the second time, the prefix. */
  lemma NetworkKeepsMembers(c: Cidr, a: Addr)
    ensures ContainsAddr(Network(c), a) <==> ContainsAddr(c, a)
    ensures InNetworkForm(Network(c))
  {
    ShrClearLow(c.address, HostBits(c));
    ClearLowAgree(ClearLow(c.address, HostBits(c)), c.address, HostBits(c));
  }

  /** Of two prefixes with a common address, the shorter contains the longer. */
  lemma SharedAddressNests(a: Cidr, b: Cidr, x: Addr)
    requires a.prefixLen <= b.prefixLen
    requires ContainsAddr(a, x) && ContainsAddr(b, x)
    ensures ContainsSubnet(a, b)
  {
    ShrAgreeUp(b.address, x, HostBits(b), HostBits(a));
  }

  /** A prefix is determined, up to host bits, by its length and any one member. */
  lemma SamePrefix(a: Cidr, b: Cidr, x: Addr)
    requires a.prefixLen == b.prefixLen
    requires ContainsAddr(a, x) && ContainsAddr(b, x)
    ensures Network(a) == Network(b)
  {
    ClearLowAgree(a.address, b.address, HostBits(a));
  }

  /** The code's overlap test decides whether two prefixes have an address in common. */
  lemma OverlapsIffShared(a: Cidr, b: Cidr)
    ensures Overlaps(a, b) <==> ShareAnAddress(a, b)
  {
    if ContainsSubnet(a, b) {
      assert ContainsAddr(b, b.address);
    }
    if ContainsSubnet(b, a) {
      assert ContainsAddr(a, a.address);
    }
    forall x: Addr | ContainsAddr(a, x) && ContainsAddr(b, x)
      ensures Overlaps(a, b)
    {
      if a.prefixLen <= b.prefixLen {
        SharedAddressNests(a, b, x);
      } else {
        SharedAddressNests(b, a, x);
      }
    }
  }

  lemma OverlapsSymmetricAndNormal(a: Cidr, b: Cidr)
    ensures Overlaps(a, b) == Overlaps(b, a)
    ensures Overlaps(a, Network(b)) == Overlaps(a, b)
  {
    OverlapsIffShared(a, b);
    OverlapsIffShared(a, Network(b));
    forall x: Addr
      ensures ContainsAddr(Network(b), x) <==> ContainsAddr(b, x)
    {
      NetworkKeepsMembers(b, x);
    }
    assert ShareAnAddress(a, Network(b)) <==> ShareAnAddress(a, b);
  }

  /** The `/32` of an address contains that address and nothing else. */
  lemma HostPrefix(a: Addr, x: Addr)
    ensures ContainsAddr(Cidr(a, 32), x) <==> x == a
    ensures InNetworkForm(Cidr(a, 32))
  {
  }
}
