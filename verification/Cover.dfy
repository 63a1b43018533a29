/** The overlay range an advertiser masquerades: the smallest prefix containing every known overlay address. */
module Cover {
  import opened Wrappers
  import opened Bits
  import opened Words
  import opened Cidrs
  import N = Nftables

  /** Leading zero bits of a 32-bit word. */
  function LeadingZeros(x: Word): PrefixLen {
    BitLengthBound(x);
    32 - BitLength(x)
  }

  lemma {:induction false} BitLengthIs(x: nat, k: nat)
    ensures BitLength(x) <= k <==> x < Pow2(k)
    decreases k
  {
    if k != 0 && x != 0 {
      BitLengthIs(x / 2, k - 1);
    }
  }

  lemma BitLengthBound(x: Word)
    ensures BitLength(x) <= 32
  {
    Pow2Word();
    BitLengthIs(x, 32);
  }

  /** XOR of two words is a word. */
  lemma XorIsWord(x: Word, y: Word)
    ensures Xor(x, y) < 0x1_0000_0000
  {
    Pow2Word();
    ShrSmall(x, 32);
    ShrSmall(y, 32);
    XorBitLength(x, y, 32);
    BitLengthIs(Xor(x, y), 32);
  }

  function CoveringPrefix(ips: seq<Addr>): Option<Cidr> {
    if ips == [] then None
    else
      var first, last := ips[0], ips[|ips| - 1];
      XorIsWord(first, last);
      var prefix := LeadingZeros(Xor(first, last));
      AndBound(first, PrefixMask(prefix));
      Some(Cidr(And(first, PrefixMask(prefix)), prefix))
  }

  ghost predicate Sorted(ips: seq<Addr>) {
    forall i, j | 0 <= i < j < |ips| :: ips[i] <= ips[j]
  }

  /** `c` contains all of `ips`, and every prefix containing the two ends of the list contains `c`. */
  ghost predicate IsLeastCover(c: Cidr, ips: seq<Addr>)
    requires ips != []
  {
    && InNetworkForm(c)
    && (forall ip | ip in ips :: ContainsAddr(c, ip))
    && forall d: Cidr | ContainsAddr(d, ips[0]) && ContainsAddr(d, ips[|ips| - 1]) ::
         d.prefixLen <= c.prefixLen && ContainsSubnet(d, c)
  }

  /** For every sorted non-empty list the XOR and leading-zeros computation is the least cover. */
  lemma CoveringPrefixIsLeast(ips: seq<Addr>)
    requires ips != [] && Sorted(ips)
    ensures IsLeastCover(CoveringPrefix(ips).value, ips)
  {
    var first, last := ips[0], ips[|ips| - 1];
    var c := CoveringPrefix(ips).value;
    XorIsWord(first, last);
    CoverOfEnds(first, last, c);
    HoldsAllBetween(c, ips);
    forall d: Cidr | ContainsAddr(d, first) && ContainsAddr(d, last)
      ensures d.prefixLen <= c.prefixLen && ContainsSubnet(d, c)
    {
      NoLongerPrefix(d, c, first, last);
    }
  }

  lemma CoverOfEnds(first: Addr, last: Addr, c: Cidr)
    requires Xor(first, last) < 0x1_0000_0000 && c.prefixLen == LeadingZeros(Xor(first, last))
    requires c.address == And(first, PrefixMask(c.prefixLen))
    ensures InNetworkForm(c) && ContainsAddr(c, first) && ContainsAddr(c, last)
    ensures HostBits(c) == BitLength(Xor(first, last))
  {
    BitLengthBound(Xor(first, last));
    XorBitLength(first, last, HostBits(c));
    MaskClears(first, c.prefixLen);
    NetworkKeepsMembers(Cidr(first, c.prefixLen), first);
    NetworkKeepsMembers(Cidr(first, c.prefixLen), last);
  }

  lemma HoldsAllBetween(c: Cidr, ips: seq<Addr>)
    requires ips != [] && Sorted(ips) && ContainsAddr(c, ips[0]) && ContainsAddr(c, ips[|ips| - 1])
    ensures forall ip | ip in ips :: ContainsAddr(c, ip)
  {
    forall ip | ip in ips
      ensures ContainsAddr(c, ip)
    {
      ShrMonotone(ips[0], ip, HostBits(c));
      ShrMonotone(ip, ips[|ips| - 1], HostBits(c));
    }
  }

  lemma NoLongerPrefix(d: Cidr, c: Cidr, first: Addr, last: Addr)
    requires ContainsAddr(d, first) && ContainsAddr(d, last) && ContainsAddr(c, first)
    requires HostBits(c) == BitLength(Xor(first, last))
    ensures d.prefixLen <= c.prefixLen && ContainsSubnet(d, c)
  {
    XorBitLength(first, last, HostBits(d));
    SharedAddressNests(d, c, first);
  }

  // ---- what feeds it ------------------------------------------------------------------------------

  function InsertAddr(a: Addr, s: seq<Addr>): (r: seq<Addr>)
    ensures forall x :: x in r <==> x == a || x in s
    ensures Sorted(s) ==> Sorted(r)
  {
    if s == [] || a <= s[0] then [a] + s
    else
      var rest := InsertAddr(a, s[1..]);
      assert Sorted(s) ==> forall x | x in s[1..] :: s[0] <= x;
      assert forall i | 0 <= i < |rest| :: rest[i] in rest;
      [s[0]] + rest
  }

  function SortAddrs(s: seq<Addr>): (r: seq<Addr>)
    ensures forall x :: x in r <==> x in s
    ensures Sorted(r)
  {
    if s == [] then [] else InsertAddr(s[0], SortAddrs(s[1..]))
  }

  function DedupAddrs(s: seq<Addr>): (r: seq<Addr>)
    ensures forall x :: x in r <==> x in s
  {
    if |s| <= 1 then s
    else
      var rest := DedupAddrs(s[1..]);
      assert s == [s[0]] + s[1..];
      if s[0] == s[1] then rest else [s[0]] + rest
  }

  lemma {:induction false} DedupKeepsOrder(s: seq<Addr>)
    requires Sorted(s)
    ensures Sorted(DedupAddrs(s))
  {
    if |s| > 1 {
      var rest := DedupAddrs(s[1..]);
      DedupKeepsOrder(s[1..]);
      forall i | 0 <= i < |rest|
        ensures s[0] <= rest[i]
      {
        assert rest[i] in s[1..];
      }
    }
  }

  /** The overlay range over our own nic addresses and every peer's, in whatever order they come. */
  method OverlayRange(nicIps: seq<IpAddr>, peerIps: seq<IpAddr>) returns (range: Option<Cidr>)
    ensures range.None? <==> forall a: Addr :: V4(a) !in nicIps && V4(a) !in peerIps
    ensures range.Some? ==>
              && InNetworkForm(range.value)
              && (forall a: Addr | V4(a) in nicIps || V4(a) in peerIps :: ContainsAddr(range.value, a))
              && forall d: Cidr | (forall a: Addr | V4(a) in nicIps || V4(a) in peerIps :: ContainsAddr(d, a)) ::
                   d.prefixLen <= range.value.prefixLen
  {
    var all := nicIps + peerIps;
    var ips: seq<Addr> := [];
    for i := 0 to |all|
      invariant forall a: Addr :: a in ips <==> V4(a) in all[..i]
    {
      assert all[..i + 1] == all[..i] + [all[i]];
      if all[i].V4? {
        ips := ips + [all[i].v4];
      }
    }
    assert all[..|all|] == all;
    var sorted := DedupAddrs(SortAddrs(ips));
    DedupKeepsOrder(SortAddrs(ips));
    range := CoveringPrefix(sorted);
    assert forall a: Addr :: V4(a) in all <==> V4(a) in nicIps || V4(a) in peerIps;
    if sorted != [] {
      CoveringPrefixIsLeast(sorted);
      assert sorted[0] in sorted && sorted[|sorted| - 1] in sorted;
      assert V4(sorted[0]) in all && V4(sorted[|sorted| - 1]) in all;
      forall d: Cidr | forall a: Addr | V4(a) in nicIps || V4(a) in peerIps :: ContainsAddr(d, a)
        ensures d.prefixLen <= range.value.prefixLen
      {
        assert ContainsAddr(d, sorted[0]) && ContainsAddr(d, sorted[|sorted| - 1]);
      }
      assert exists a: Addr :: V4(a) in nicIps || V4(a) in peerIps;
    } else {
      assert forall a: Addr :: a !in sorted;
    }
  }

  /** The rule compiled from the least cover masquerades a packet from any of the covered addresses. */
  lemma OverlayTrafficIsMasqueraded(ips: seq<Addr>, r: N.Ruleset, p: N.Packet, little: bool)
    requires ips != [] && Sorted(ips) && N.IsValid(r) && N.IsPacket(p)
    requires Cidr(r.net, r.prefix) == CoveringPrefix(ips).value
    requires |p.network| >= 20 && BeValue(p.network[12..16]) in ips && p.oif == r.lanIf
    ensures N.RunRule(N.MasqRule(r), p, little) == N.Masqueraded
  {
    CoveringPrefixIsLeast(ips);
    N.MasqRuleMeaning(r, p, little);
  }
}
