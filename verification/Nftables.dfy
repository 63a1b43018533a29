/**
 The nf_tables rules of a subnet router: a ruleset compiled to register
 programs, and what those programs do to a packet.
 */
module Nftables {
  import opened Wrappers
  import opened Bits
  import opened Words
  import opened Cidrs

  const IFNAMSIZ_MAX := 15
  const CT_STATE_ESTABLISHED_RELATED: Word := 0x6
  const IPPROTO_TCP: Byte := 6
  const TCP_FLAG_SYN: Byte := 0x02

  type Name = seq<Byte>

  datatype Ruleset = Ruleset(net: Addr, prefix: nat, lanIf: Name, tunIf: Name, mssClamp: bool)

  datatype RulesetError = BadName(name: Name) | BadPrefix(prefix: nat)

  predicate IsNameByte(b: Byte) {
    || 0x30 <= b <= 0x39 || 0x41 <= b <= 0x5A || 0x61 <= b <= 0x7A
    || b == 0x2D || b == 0x5F || b == 0x2E
  }

  predicate CheckIfname(name: Name) {
    0 < |name| <= IFNAMSIZ_MAX && forall b | b in name :: IsNameByte(b)
  }

  ghost predicate IsNameChar(c: char) {
    'a' <= c <= 'z' || 'A' <= c <= 'Z' || '0' <= c <= '9' || c in {'-', '_', '.'}
  }

  /** The names that pass: one to fifteen letters, digits, dashes, underscores and dots. */
  lemma CheckedNames(name: Name)
    ensures CheckIfname(name) <==> 1 <= |name| <= 15 && forall b | b in name :: IsNameChar(b as char)
  {
    forall b | b in name
      ensures IsNameByte(b) <==> IsNameChar(b as char)
    {
    }
  }

  /** The validating constructor: the compiler only ever sees what passes here. */
  function NewRuleset(net: Addr, prefix: nat, lanIf: Name, tunIf: Name, mssClamp: bool): (r: Result<Ruleset, RulesetError>)
    ensures r.Ok? <==> CheckIfname(lanIf) && CheckIfname(tunIf) && prefix <= 32
    ensures r.Ok? ==> r.value == Ruleset(net, prefix, lanIf, tunIf, mssClamp) && IsValid(r.value)
  {
    if !CheckIfname(lanIf) then Err(BadName(lanIf))
    else if !CheckIfname(tunIf) then Err(BadName(tunIf))
    else if prefix > 32 then Err(BadPrefix(prefix))
    else Ok(Ruleset(net, prefix, lanIf, tunIf, mssClamp))
  }

  predicate IsValid(r: Ruleset) {
    CheckIfname(r.lanIf) && CheckIfname(r.tunIf) && r.prefix <= 32
  }

  // ---- the expression language ---------------------------------------------------------------------

  datatype Register = Reg1 | Reg2 | Reg3 | Reg4

  datatype MetaKey = Iifname | Oifname | L4Proto

  datatype Base = NetworkHeader | TransportHeader

  datatype Expr =
    | Meta(key: MetaKey, dreg: Register)
    | CmpEq(sreg: Register, data: seq<Byte>)
    | CmpNe(sreg: Register, data: seq<Byte>)
    | Payload(dreg: Register, base: Base, offset: nat, len: nat)
    | Bitwise(sreg: Register, dreg: Register, len: nat, mask: seq<Byte>)
    | CtState(dreg: Register)
    | RtTcpMss(dreg: Register)
    | Hton(sreg: Register, dreg: Register, len: nat)
    | WriteMss(sreg: Register, len: nat)
    | Accept
    | Masquerade

  // ---- the compiler ---------------------------------------------------------------------------------

  function Zeros(n: nat): seq<Byte> {
    seq(n, i => 0)
  }

  /** `name` resized to 16 bytes. */
  function IfnameBytes(name: Name): (r: seq<Byte>)
    ensures |r| == 16
  {
    if |name| >= 16 then name[..16] else name + Zeros(16 - |name|)
  }

  function MatchIfname(key: MetaKey, name: Name): seq<Expr> {
    [Meta(key, Reg1), CmpEq(Reg1, IfnameBytes(name))]
  }

  /** Matches a source address inside the prefix; the address sits at byte 12 of the header (section 3.1 of RFC 791). */
  function MatchSaddr(net: Addr, prefix: nat): seq<Expr>
    requires prefix <= 32
  {
    var mask := PrefixMask(prefix);
    MaskIsWord(prefix);
    AndBound(net, mask);
    [Payload(Reg1, NetworkHeader, 12, 4),
     Bitwise(Reg1, Reg1, 4, BeBytes(mask)),
     CmpEq(Reg1, BeBytes(And(net, mask)))]
  }

  lemma MaskIsWord(prefix: nat)
    requires prefix <= 32
    ensures PrefixMask(prefix) < 0x1_0000_0000
  {
  }

  function MatchCtEstablishedRelated(little: bool): seq<Expr> {
    [CtState(Reg1),
     Bitwise(Reg1, Reg1, 4, NeBytes(CT_STATE_ESTABLISHED_RELATED, little)),
     CmpNe(Reg1, Zeros(4))]
  }

  function TcpSynMssClamp(): seq<Expr> {
    [Meta(L4Proto, Reg1),
     CmpEq(Reg1, [IPPROTO_TCP]),
     Payload(Reg1, TransportHeader, 13, 1),
     Bitwise(Reg1, Reg1, 1, [TCP_FLAG_SYN]),
     CmpNe(Reg1, [0]),
     RtTcpMss(Reg1),
     Hton(Reg1, Reg1, 2),
     WriteMss(Reg1, 2)]
  }

  function MasqRule(r: Ruleset): seq<Expr>
    requires r.prefix <= 32
  {
    MatchSaddr(r.net, r.prefix) + MatchIfname(Oifname, r.lanIf) + [Masquerade]
  }

  function OutRule(r: Ruleset): seq<Expr> {
    MatchIfname(Iifname, r.tunIf) + MatchIfname(Oifname, r.lanIf) + [Accept]
  }

  function BackRule(r: Ruleset, little: bool): seq<Expr> {
    MatchIfname(Iifname, r.lanIf) + MatchIfname(Oifname, r.tunIf) + MatchCtEstablishedRelated(little) + [Accept]
  }

  function ClampRule(r: Ruleset, key: MetaKey): seq<Expr> {
    MatchIfname(key, r.tunIf) + TcpSynMssClamp()
  }

  // ---- the machine -----------------------------------------------------------------------------------

  /** What the programs can see of a packet; `routeMss` is the MSS its route allows. */
  datatype Packet = Packet(
    iif: Name,
    oif: Name,
    network: seq<Byte>,
    transport: seq<Byte>,
    l4proto: Byte,
    ctState: Word,
    routeMss: Half)

  /** A kernel interface name: at most 15 bytes, none of them NUL. */
  predicate IsKernelName(name: Name) {
    |name| <= IFNAMSIZ_MAX && 0 !in name
  }

  predicate IsPacket(p: Packet) {
    IsKernelName(p.iif) && IsKernelName(p.oif)
  }

  /** How a rule ends: broken off, at its end with the MSS it wrote, or with a verdict. */
  datatype Ending = Broke | Ended(mss: Option<seq<Byte>>) | Accepted | Masqueraded

  type Registers = map<Register, seq<Byte>>

  function Load(key: MetaKey, p: Packet): seq<Byte> {
    match key
    case Iifname => IfnameBytes(p.iif)
    case Oifname => IfnameBytes(p.oif)
    case L4Proto => [p.l4proto]
  }

  /** The first `len` bytes of a register, if it holds that many. */
  function Read(regs: Registers, r: Register, len: nat): Option<seq<Byte>> {
    if r in regs && |regs[r]| >= len then Some(regs[r][..len]) else None
  }

  function Reverse(s: seq<Byte>): seq<Byte> {
    if s == [] then [] else Reverse(s[1..]) + [s[0]]
  }

  function Run(exprs: seq<Expr>, p: Packet, regs: Registers, mss: Option<seq<Byte>>, little: bool): Ending
    decreases exprs
  {
    if exprs == [] then Ended(mss)
    else
      var rest := exprs[1..];
      match exprs[0]
      case Meta(key, dreg) => Run(rest, p, regs[dreg := Load(key, p)], mss, little)
      case CmpEq(sreg, data) =>
        if Read(regs, sreg, |data|) == Some(data) then Run(rest, p, regs, mss, little) else Broke
      case CmpNe(sreg, data) =>
        var v := Read(regs, sreg, |data|);
        if v.Some? && v.value != data then Run(rest, p, regs, mss, little) else Broke
      case Payload(dreg, base, offset, len) =>
        var header := if base == NetworkHeader then p.network else p.transport;
        if offset + len <= |header| then Run(rest, p, regs[dreg := header[offset..offset + len]], mss, little) else Broke
      case Bitwise(sreg, dreg, len, mask) =>
        var v := Read(regs, sreg, len);
        if v.Some? && |mask| == len then Run(rest, p, regs[dreg := AndBytes(v.value, mask)], mss, little) else Broke
      case CtState(dreg) => Run(rest, p, regs[dreg := NeBytes(p.ctState, little)], mss, little)
      case RtTcpMss(dreg) => Run(rest, p, regs[dreg := NeHalf(p.routeMss, little)], mss, little)
      case Hton(sreg, dreg, len) =>
        var v := Read(regs, sreg, len);
        if v.Some? then Run(rest, p, regs[dreg := if little then Reverse(v.value) else v.value], mss, little) else Broke
      case WriteMss(sreg, len) =>
        var v := Read(regs, sreg, len);
        if v.Some? then Run(rest, p, regs, v, little) else Broke
      case Accept => Accepted
      case Masquerade => Masqueraded
  }

  function RunRule(exprs: seq<Expr>, p: Packet, little: bool): Ending {
    Run(exprs, p, map[], None, little)
  }

  // ---- names -------------------------------------------------------------------------------------------

  lemma PaddingShape(name: Name, i: nat)
    requires IsKernelName(name) && i < 16
    ensures IfnameBytes(name)[i] == (if i < |name| then name[i] else 0)
    ensures IfnameBytes(name)[i] == 0 <==> i >= |name|
  {
  }

  /** Padding keeps names of at most 15 bytes without NUL apart. */
  lemma PaddingIsInjective(a: Name, b: Name)
    requires IsKernelName(a) && IsKernelName(b)
    ensures IfnameBytes(a) == IfnameBytes(b) <==> a == b
  {
    PaddingShape(a, |a|);
    PaddingShape(a, |b|);
    PaddingShape(b, |a|);
    PaddingShape(b, |b|);
    if IfnameBytes(a) == IfnameBytes(b) {
      assert a == IfnameBytes(a)[..|a|] && b == IfnameBytes(b)[..|b|];
    }
  }

  lemma CheckedNameIsKernelName(name: Name)
    requires CheckIfname(name)
    ensures IsKernelName(name)
  {
  }

  /** Without the length check two different names would compile to the same comparison. */
  lemma LongNamesCollide(stem: Name, a: Byte, b: Byte)
    requires |stem| == 16 && a != b
    ensures stem + [a] != stem + [b] && IfnameBytes(stem + [a]) == IfnameBytes(stem + [b])
    ensures !CheckIfname(stem + [a])
  {
    assert (stem + [a])[16] == a && (stem + [b])[16] == b;
    assert (stem + [a])[..16] == stem && (stem + [b])[..16] == stem;
  }

  // ---- what each fragment does ---------------------------------------------------------------------------

  function NameOf(key: MetaKey, p: Packet): Name {
    if key == Iifname then p.iif else p.oif
  }

  /** An interface match continues with the rest exactly on that interface. */
  lemma RunIfname(key: MetaKey, name: Name, rest: seq<Expr>, p: Packet, regs: Registers, mss: Option<seq<Byte>>, little: bool)
    returns (regs': Registers)
    requires key != L4Proto && CheckIfname(name) && IsPacket(p)
    ensures Run(MatchIfname(key, name) + rest, p, regs, mss, little) ==
            if NameOf(key, p) == name then Run(rest, p, regs', mss, little) else Broke
  {
    regs' := regs[Reg1 := Load(key, p)];
    CheckedNameIsKernelName(name);
    PaddingIsInjective(NameOf(key, p), name);
    var program := MatchIfname(key, name) + rest;
    assert program[1..] == [CmpEq(Reg1, IfnameBytes(name))] + rest;
    assert program[1..][1..] == rest;
    assert regs'[Reg1][..16] == regs'[Reg1];
  }

  predicate SourceIn(p: Packet, net: Addr, prefix: nat)
    requires prefix <= 32
  {
    |p.network| >= 16 && ContainsAddr(Cidr(net, prefix), BeValue(p.network[12..16]))
  }

  /** Masking and comparing the bytes is the prefix test on the address they spell. */
  lemma MaskedCompare(source: seq<Byte>, net: Addr, prefix: nat)
    requires |source| == 4 && prefix <= 32
    ensures PrefixMask(prefix) < 0x1_0000_0000 && And(net, PrefixMask(prefix)) < 0x1_0000_0000
    ensures AndBytes(source, BeBytes(PrefixMask(prefix))) == BeBytes(And(net, PrefixMask(prefix)))
            <==> ContainsAddr(Cidr(net, prefix), BeValue(source))
  {
    var mask, a := PrefixMask(prefix), BeValue(source);
    MaskIsWord(prefix);
    ValueRoundTrip(source);
    AndWordBytes(a, mask);
    AndBound(net, mask);
    BeRoundTrip(And(a, mask));
    BeRoundTrip(And(net, mask));
    MaskClears(a, prefix);
    MaskClears(net, prefix);
    var k := 32 - prefix;
    if Shr(net, k) == Shr(a, k) {
      ClearLowAgree(net, a, k);
    }
    ShrClearLow(net, k);
    ShrClearLow(a, k);
  }

  lemma RunSaddr(net: Addr, prefix: nat, rest: seq<Expr>, p: Packet, regs: Registers, mss: Option<seq<Byte>>, little: bool)
    returns (regs': Registers)
    requires prefix <= 32
    ensures Run(MatchSaddr(net, prefix) + rest, p, regs, mss, little) ==
            if SourceIn(p, net, prefix) then Run(rest, p, regs', mss, little) else Broke
  {
    MaskIsWord(prefix);
    AndBound(net, PrefixMask(prefix));
    var mask, want := BeBytes(PrefixMask(prefix)), BeBytes(And(net, PrefixMask(prefix)));
    var t2 := [CmpEq(Reg1, want)] + rest;
    var t1 := [Bitwise(Reg1, Reg1, 4, mask)] + t2;
    var t0 := [Payload(Reg1, NetworkHeader, 12, 4)] + t1;
    assert MatchSaddr(net, prefix) + rest == t0;
    assert t0[1..] == t1 && t1[1..] == t2 && t2[1..] == rest;
    regs' := regs;
    if |p.network| >= 16 {
      var source := p.network[12..16];
      MaskedCompare(source, net, prefix);
      var masked := AndBytes(source, mask);
      var r1 := regs[Reg1 := source];
      regs' := r1[Reg1 := masked];
      assert source[..4] == source && masked[..4] == masked;
      assert Run(t0, p, regs, mss, little) == Run(t1, p, r1, mss, little);
      assert Run(t1, p, r1, mss, little) == Run(t2, p, regs', mss, little);
      assert Run(t2, p, regs', mss, little) == if masked == want then Run(rest, p, regs', mss, little) else Broke;
    } else {
      assert Run(t0, p, regs, mss, little) == Broke;
    }
  }

  predicate EstablishedOrRelated(p: Packet) {
    And(p.ctState, CT_STATE_ESTABLISHED_RELATED) != 0
  }

  lemma RunCtState(rest: seq<Expr>, p: Packet, regs: Registers, mss: Option<seq<Byte>>, little: bool)
    returns (regs': Registers)
    ensures Run(MatchCtEstablishedRelated(little) + rest, p, regs, mss, little) ==
            if EstablishedOrRelated(p) then Run(rest, p, regs', mss, little) else Broke
  {
    var state, mask := NeBytes(p.ctState, little), NeBytes(CT_STATE_ESTABLISHED_RELATED, little);
    var t2 := [CmpNe(Reg1, Zeros(4))] + rest;
    var t1 := [Bitwise(Reg1, Reg1, 4, mask)] + t2;
    var t0 := [CtState(Reg1)] + t1;
    assert MatchCtEstablishedRelated(little) + rest == t0;
    assert t0[1..] == t1 && t1[1..] == t2 && t2[1..] == rest;
    AndNeBytes(p.ctState, CT_STATE_ESTABLISHED_RELATED, little);
    var masked := AndBytes(state, mask);
    ZeroBytes(And(p.ctState, CT_STATE_ESTABLISHED_RELATED), little);
    assert Zeros(4) == [0, 0, 0, 0];
    assert state[..4] == state && masked[..4] == masked;
    var r1 := regs[Reg1 := state];
    regs' := r1[Reg1 := masked];
    assert Run(t0, p, regs, mss, little) == Run(t1, p, r1, mss, little);
    assert Run(t1, p, r1, mss, little) == Run(t2, p, regs', mss, little);
    assert Run(t2, p, regs', mss, little) == if masked != Zeros(4) then Run(rest, p, regs', mss, little) else Broke;
  }

  predicate IsTcpSyn(p: Packet) {
    p.l4proto == IPPROTO_TCP && |p.transport| >= 14 && And(p.transport[13], TCP_FLAG_SYN) != 0
  }

  /** The clamp writes the route's MSS in network order, whatever the host's order, to SYN segments only. */
  lemma RunClamp(p: Packet, regs: Registers, little: bool)
    ensures Run(TcpSynMssClamp(), p, regs, None, little) ==
            if IsTcpSyn(p) then Ended(Some(BeHalf(p.routeMss))) else Broke
  {
    var c := TcpSynMssClamp();
    var r1 := regs[Reg1 := [p.l4proto]];
    assert r1[Reg1][..1] == [p.l4proto];
    assert Run(c, p, regs, None, little) == if p.l4proto == IPPROTO_TCP then Run(c[2..], p, r1, None, little) else Broke by {
      assert c[1..][1..] == c[2..];
    }
    if |p.transport| >= 14 {
      RunSynTest(p, r1, little);
    } else {
      assert c[2..][0] == Payload(Reg1, TransportHeader, 13, 1);
    }
  }

  lemma RunSynTest(p: Packet, regs: Registers, little: bool)
    requires |p.transport| >= 14
    ensures Run(TcpSynMssClamp()[2..], p, regs, None, little) ==
            if And(p.transport[13], TCP_FLAG_SYN) != 0 then Ended(Some(BeHalf(p.routeMss))) else Broke
  {
    var c := TcpSynMssClamp();
    var flags := p.transport[13..14];
    var masked := AndBytes(flags, [TCP_FLAG_SYN]);
    assert masked == [AndOf(p.transport[13], TCP_FLAG_SYN)];
    var r1 := regs[Reg1 := flags];
    var r2 := r1[Reg1 := masked];
    assert flags[..1] == flags && masked[..1] == masked;
    assert c[2..][1..] == c[3..] && c[3..][1..] == c[4..] && c[4..][1..] == c[5..];
    assert c[2..][0] == c[2] && c[3..][0] == c[3] && c[4..][0] == c[4];
    assert Run(c[2..], p, regs, None, little) == Run(c[3..], p, r1, None, little);
    assert Run(c[3..], p, r1, None, little) == Run(c[4..], p, r2, None, little);
    assert Run(c[4..], p, r2, None, little) == if masked != [0] then Run(c[5..], p, r2, None, little) else Broke;
    RunMssWrite(p, r2, little);
  }

  lemma RunMssWrite(p: Packet, regs: Registers, little: bool)
    ensures Run(TcpSynMssClamp()[5..], p, regs, None, little) == Ended(Some(BeHalf(p.routeMss)))
  {
    var c := TcpSynMssClamp();
    var loaded := NeHalf(p.routeMss, little);
    assert loaded[..2] == loaded;
    var swapped := if little then Reverse(loaded) else loaded;
    assert loaded[1..][1..] == [];
    assert Reverse(loaded) == [loaded[1], loaded[0]] by {
      assert Reverse(loaded[1..]) == [loaded[1]];
    }
    assert swapped == BeHalf(p.routeMss) && swapped[..2] == swapped;
    var r1 := regs[Reg1 := loaded];
    var r2 := r1[Reg1 := swapped];
    assert c[5..][1..] == c[6..] && c[6..][1..] == c[7..] && c[7..][1..] == [];
    assert c[5..][0] == c[5] && c[6..][0] == c[6] && c[7..][0] == c[7];
    assert Run(c[5..], p, regs, None, little) == Run(c[6..], p, r1, None, little);
    assert Run(c[6..], p, r1, None, little) == Run(c[7..], p, r2, None, little);
    assert Run(c[7..], p, r2, None, little) == Run([], p, r2, Some(swapped), little);
  }

  // ---- compilation preserves meaning ------------------------------------------------------------------------

  /** Masquerade exactly what comes from the overlay prefix and leaves through the LAN interface. */
  lemma MasqRuleMeaning(r: Ruleset, p: Packet, little: bool)
    requires IsValid(r) && IsPacket(p)
    ensures RunRule(MasqRule(r), p, little) == if SourceIn(p, r.net, r.prefix) && p.oif == r.lanIf then Masqueraded else Broke
  {
    var tail := MatchIfname(Oifname, r.lanIf) + [Masquerade];
    assert MasqRule(r) == MatchSaddr(r.net, r.prefix) + tail;
    var r1 := RunSaddr(r.net, r.prefix, tail, p, map[], None, little);
    var r2 := RunIfname(Oifname, r.lanIf, [Masquerade], p, r1, None, little);
  }

  /** Accept everything going from the tunnel to the LAN. */
  lemma OutRuleMeaning(r: Ruleset, p: Packet, little: bool)
    requires IsValid(r) && IsPacket(p)
    ensures RunRule(OutRule(r), p, little) == if p.iif == r.tunIf && p.oif == r.lanIf then Accepted else Broke
  {
    var tail := MatchIfname(Oifname, r.lanIf) + [Accept];
    assert OutRule(r) == MatchIfname(Iifname, r.tunIf) + tail;
    var r1 := RunIfname(Iifname, r.tunIf, tail, p, map[], None, little);
    var r2 := RunIfname(Oifname, r.lanIf, [Accept], p, r1, None, little);
  }

  /** Accept replies, and only replies, going from the LAN to the tunnel. */
  lemma BackRuleMeaning(r: Ruleset, p: Packet, little: bool)
    requires IsValid(r) && IsPacket(p)
    ensures RunRule(BackRule(r, little), p, little) ==
            if p.iif == r.lanIf && p.oif == r.tunIf && EstablishedOrRelated(p) then Accepted else Broke
  {
    var tail2 := MatchCtEstablishedRelated(little) + [Accept];
    var tail1 := MatchIfname(Oifname, r.tunIf) + tail2;
    assert BackRule(r, little) == MatchIfname(Iifname, r.lanIf) + tail1;
    var r1 := RunIfname(Iifname, r.lanIf, tail1, p, map[], None, little);
    var r2 := RunIfname(Oifname, r.tunIf, tail2, p, r1, None, little);
    var r3 := RunCtState([Accept], p, r2, None, little);
  }

  /** Clamp the MSS of exactly the TCP SYNs that enter or leave through the tunnel, per direction. */
  lemma ClampRuleMeaning(r: Ruleset, key: MetaKey, p: Packet, little: bool)
    requires IsValid(r) && IsPacket(p) && key != L4Proto
    ensures RunRule(ClampRule(r, key), p, little) ==
            if NameOf(key, p) == r.tunIf && IsTcpSyn(p) then Ended(Some(BeHalf(p.routeMss))) else Broke
  {
    var r1 := RunIfname(key, r.tunIf, TcpSynMssClamp(), p, map[], None, little);
    RunClamp(p, r1, little);
  }

  // ---- the batch -----------------------------------------------------------------------------------------------

  datatype ChainName = PostroutingChain | ForwardChain | MssClampChain

  datatype Hook = PostRoutingHook | ForwardHook

  datatype Message =
    | BatchBegin
    | DeleteTable
    | NewTable
    | NewChain(name: ChainName, chainType: string, hook: Hook, priority: int)
    | NewRule(chain: ChainName, exprs: seq<Expr>)
    | BatchEnd

  datatype Chain = Chain(chainType: string, hook: Hook, priority: int, rules: seq<seq<Expr>>)

  /** Our table, if it exists: its chains. */
  type Table = Option<map<ChainName, Chain>>

  /** One message of a transaction; None is an error, which aborts it. */
  function ApplyOne(m: Message, t: Table): Option<Table> {
    match m
    case BatchBegin => Some(t)
    case BatchEnd => Some(t)
    case DeleteTable => if t.Some? then Some(None) else None
    case NewTable => Some(if t.Some? then t else Some(map[]))
    case NewChain(name, chainType, hook, priority) =>
      if t.None? || name in t.value then None
      else Some(Some(t.value[name := Chain(chainType, hook, priority, [])]))
    case NewRule(chain, exprs) =>
      if t.None? || chain !in t.value then None
      else
        var c := t.value[chain];
        Some(Some(t.value[chain := c.(rules := c.rules + [exprs])]))
  }

  /** All messages, or none of them: an aborted batch leaves the table as it was. */
  function ApplyAll(batch: seq<Message>, t: Table): Option<Table>
    decreases batch
  {
    if batch == [] then Some(t)
    else match ApplyOne(batch[0], t)
      case None => None
      case Some(t') => ApplyAll(batch[1..], t')
  }

  function Commit(batch: seq<Message>, t: Table): Table {
    match ApplyAll(batch, t)
    case None => t
    case Some(t') => t'
  }

  function BaseTable(masq: seq<Expr>, out: seq<Expr>, back: seq<Expr>): map<ChainName, Chain> {
    map[PostroutingChain := Chain("nat", PostRoutingHook, 100, [masq]),
        ForwardChain := Chain("filter", ForwardHook, 0, [out, back])]
  }

  /** The table a ruleset stands for. */
  function TableOf(r: Ruleset, little: bool): map<ChainName, Chain>
    requires r.prefix <= 32
  {
    var base := BaseTable(MasqRule(r), OutRule(r), BackRule(r, little));
    if r.mssClamp
    then base[MssClampChain := Chain("filter", ForwardHook, -150, [ClampRule(r, Iifname), ClampRule(r, Oifname)])]
    else base
  }

  // ---- what the table does to a packet -----------------------------------------------------------------

  /** A chain decides by the first rule with a verdict; without one its policy holds, which is accept in every chain here. */
  datatype Verdict = ByRule(ending: Ending) | ByPolicy

  /** A chain's verdict, and the MSS values its rules wrote into the packet, in order. */
  datatype Passage = Passage(verdict: Verdict, mss: seq<seq<Byte>>)

  function RunChain(rules: seq<seq<Expr>>, p: Packet, little: bool): Passage
    decreases rules
  {
    if rules == [] then Passage(ByPolicy, [])
    else match RunRule(rules[0], p, little)
      case Broke => RunChain(rules[1..], p, little)
      case Ended(None) => RunChain(rules[1..], p, little)
      case Ended(Some(mss)) =>
        var rest := RunChain(rules[1..], p, little);
        rest.(mss := [mss] + rest.mss)
      case verdict => Passage(ByRule(verdict), [])
  }

  function PassThrough(t: map<ChainName, Chain>, name: ChainName, p: Packet, little: bool): Passage {
    if name in t then RunChain(t[name].rules, p, little) else Passage(ByPolicy, [])
  }

  predicate Forwards(r: Ruleset, p: Packet) {
    || (p.iif == r.tunIf && p.oif == r.lanIf)
    || (p.iif == r.lanIf && p.oif == r.tunIf && EstablishedOrRelated(p))
  }

  /** The MSS values a packet gets: for a SYN, the route's once for each of its interfaces that is the tunnel. */
  function Clamps(r: Ruleset, p: Packet): seq<seq<Byte>> {
    if !r.mssClamp || !IsTcpSyn(p) then []
    else (if p.iif == r.tunIf then [BeHalf(p.routeMss)] else []) + (if p.oif == r.tunIf then [BeHalf(p.routeMss)] else [])
  }

  lemma RunTwoRules(first: seq<Expr>, second: seq<Expr>, p: Packet, little: bool)
    ensures RunChain([first, second], p, little) ==
            match RunRule(first, p, little)
            case Broke => RunChain([second], p, little)
            case Ended(None) => RunChain([second], p, little)
            case Ended(Some(mss)) =>
              var rest := RunChain([second], p, little);
              rest.(mss := [mss] + rest.mss)
            case verdict => Passage(ByRule(verdict), [])
  {
    assert [first, second][1..] == [second];
  }

  lemma RunLastRule(rule: seq<Expr>, p: Packet, little: bool)
    ensures RunChain([rule], p, little) ==
            match RunRule(rule, p, little)
            case Broke => Passage(ByPolicy, [])
            case Ended(None) => Passage(ByPolicy, [])
            case Ended(Some(mss)) => Passage(ByPolicy, [mss])
            case verdict => Passage(ByRule(verdict), [])
  {
    assert [rule][1..] == [];
  }

  /**
   A packet through the ruleset's table: masqueraded exactly if it comes from the
   overlay and leaves through the LAN, accepted by a rule exactly if it goes from
   tunnel to LAN or is a reply the other way, clamped as its interfaces say, and
   otherwise left to the policy.
   */
  lemma TableMeaning(r: Ruleset, p: Packet, little: bool)
    requires IsValid(r) && IsPacket(p)
    ensures var t := TableOf(r, little);
            && PassThrough(t, PostroutingChain, p, little) ==
               Passage(if SourceIn(p, r.net, r.prefix) && p.oif == r.lanIf then ByRule(Masqueraded) else ByPolicy, [])
            && PassThrough(t, ForwardChain, p, little) ==
               Passage(if Forwards(r, p) then ByRule(Accepted) else ByPolicy, [])
            && PassThrough(t, MssClampChain, p, little) == Passage(ByPolicy, Clamps(r, p))
  {
    MasqRuleMeaning(r, p, little);
    RunLastRule(MasqRule(r), p, little);
    OutRuleMeaning(r, p, little);
    BackRuleMeaning(r, p, little);
    RunTwoRules(OutRule(r), BackRule(r, little), p, little);
    RunLastRule(BackRule(r, little), p, little);
    ClampRuleMeaning(r, Iifname, p, little);
    ClampRuleMeaning(r, Oifname, p, little);
    RunTwoRules(ClampRule(r, Iifname), ClampRule(r, Oifname), p, little);
    RunLastRule(ClampRule(r, Oifname), p, little);
  }

  /** A chain of a type at a hook, at the place in the order there that nf_tables calls mangle (-150), filter (0) or srcnat (100). */
  ghost predicate IsChainAt(t: map<ChainName, Chain>, name: ChainName, chainType: string, hook: Hook, priority: int) {
    name in t && t[name].chainType == chainType && t[name].hook == hook && t[name].priority == priority
  }

  /** Some filter chain at the forward hook accepts by a rule. */
  ghost predicate FilterAccepts(t: map<ChainName, Chain>, p: Packet, little: bool) {
    exists name :: IsChainAt(t, name, "filter", ForwardHook, 0) && RunChain(t[name].rules, p, little).verdict == ByRule(Accepted)
  }

  /** Some nat chain at the postrouting hook masquerades; elsewhere that verdict has no effect. */
  ghost predicate NatMasquerades(t: map<ChainName, Chain>, p: Packet, little: bool) {
    exists name :: IsChainAt(t, name, "nat", PostRoutingHook, 100) && RunChain(t[name].rules, p, little).verdict == ByRule(Masqueraded)
  }

  /** `mss` is written by a chain at the forward hook that comes before every filter there. */
  ghost predicate WritesMss(t: map<ChainName, Chain>, p: Packet, little: bool, mss: seq<Byte>) {
    exists name :: IsChainAt(t, name, "filter", ForwardHook, -150) && mss in RunChain(t[name].rules, p, little).mss
  }

  lemma FilterEffect(r: Ruleset, p: Packet, little: bool)
    requires IsValid(r) && IsPacket(p)
    ensures FilterAccepts(TableOf(r, little), p, little) <==> Forwards(r, p)
  {
    TableMeaning(r, p, little);
    assert IsChainAt(TableOf(r, little), ForwardChain, "filter", ForwardHook, 0);
  }

  lemma NatEffect(r: Ruleset, p: Packet, little: bool)
    requires IsValid(r) && IsPacket(p)
    ensures NatMasquerades(TableOf(r, little), p, little) <==> SourceIn(p, r.net, r.prefix) && p.oif == r.lanIf
  {
    TableMeaning(r, p, little);
    assert IsChainAt(TableOf(r, little), PostroutingChain, "nat", PostRoutingHook, 100);
  }

  lemma MssEffect(r: Ruleset, p: Packet, little: bool, mss: seq<Byte>)
    requires IsValid(r) && IsPacket(p)
    ensures WritesMss(TableOf(r, little), p, little, mss) <==>
            r.mssClamp && IsTcpSyn(p) && (p.iif == r.tunIf || p.oif == r.tunIf) && mss == BeHalf(p.routeMss)
  {
    TableMeaning(r, p, little);
    if mss in Clamps(r, p) {
      assert IsChainAt(TableOf(r, little), MssClampChain, "filter", ForwardHook, -150);
    }
  }

  /** Each chain sits where its rules take effect, so a forwarded packet is treated as the ruleset says. */
  lemma TableTakesEffect(r: Ruleset, p: Packet, little: bool)
    requires IsValid(r) && IsPacket(p)
    ensures FilterAccepts(TableOf(r, little), p, little) <==> Forwards(r, p)
    ensures NatMasquerades(TableOf(r, little), p, little) <==> SourceIn(p, r.net, r.prefix) && p.oif == r.lanIf
    ensures forall mss :: WritesMss(TableOf(r, little), p, little, mss) <==>
              r.mssClamp && IsTcpSyn(p) && (p.iif == r.tunIf || p.oif == r.tunIf) && mss == BeHalf(p.routeMss)
  {
    FilterEffect(r, p, little);
    NatEffect(r, p, little);
    forall mss
      ensures WritesMss(TableOf(r, little), p, little, mss) <==>
                r.mssClamp && IsTcpSyn(p) && (p.iif == r.tunIf || p.oif == r.tunIf) && mss == BeHalf(p.routeMss)
    {
      MssEffect(r, p, little, mss);
    }
  }

  // ---- committing it -----------------------------------------------------------------------------------

  /** Committing `msgs` over any existing table gives `t`; without a table they abort. */
  ghost predicate Yields(msgs: seq<Message>, t: Table) {
    && (forall existing: map<ChainName, Chain> :: ApplyAll(msgs, Some(existing)) == Some(t))
    && ApplyAll(msgs, None) == None
  }

  lemma {:induction false} ApplyAllAppend(msgs: seq<Message>, m: Message, t: Table)
    ensures ApplyAll(msgs + [m], t) == match ApplyAll(msgs, t) case None => None case Some(t') => ApplyOne(m, t')
    decreases msgs
  {
    if msgs == [] {
      assert ([] + [m])[1..] == [];
    } else {
      assert (msgs + [m])[1..] == msgs[1..] + [m];
      if ApplyOne(msgs[0], t).Some? {
        ApplyAllAppend(msgs[1..], m, ApplyOne(msgs[0], t).value);
      }
    }
  }

  lemma YieldsAppend(msgs: seq<Message>, m: Message, t: Table, t': Table)
    requires Yields(msgs, t) && ApplyOne(m, t) == Some(t')
    ensures Yields(msgs + [m], t')
  {
    forall existing: map<ChainName, Chain>
      ensures ApplyAll(msgs + [m], Some(existing)) == Some(t')
    {
      ApplyAllAppend(msgs, m, Some(existing));
    }
    ApplyAllAppend(msgs, m, None);
  }

  /** Append a message, keeping track of the table the messages yield. */
  method Push(msgs: seq<Message>, m: Message, ghost t: Table) returns (longer: seq<Message>, ghost t': Table)
    requires Yields(msgs, t) && ApplyOne(m, t).Some?
    ensures longer == msgs + [m] && Some(t') == ApplyOne(m, t) && Yields(longer, t')
  {
    t' := ApplyOne(m, t).value;
    YieldsAppend(msgs, m, t, t');
    longer := msgs + [m];
  }

  method BaseMessages(masq: seq<Expr>, out: seq<Expr>, back: seq<Expr>) returns (msgs: seq<Message>, ghost t: Table)
    ensures t == Some(BaseTable(masq, out, back)) && Yields(msgs, t)
  {
    msgs, t := [BatchBegin, DeleteTable], None;
    assert Yields(msgs, t) by {
      assert msgs[1..] == [DeleteTable] && msgs[1..][1..] == [];
    }
    msgs, t := Push(msgs, NewTable, t);
    msgs, t := Push(msgs, NewChain(PostroutingChain, "nat", PostRoutingHook, 100), t);
    msgs, t := Push(msgs, NewChain(ForwardChain, "filter", ForwardHook, 0), t);
    msgs, t := Push(msgs, NewRule(PostroutingChain, masq), t);
    msgs, t := Push(msgs, NewRule(ForwardChain, out), t);
    msgs, t := Push(msgs, NewRule(ForwardChain, back), t);
    assert t.value[PostroutingChain].rules == [masq] && t.value[ForwardChain].rules == [out, back];
    assert t.value.Keys == {PostroutingChain, ForwardChain};
    assert t.value == BaseTable(masq, out, back);
  }

  method AddClamps(msgs: seq<Message>, r: Ruleset, ghost base: map<ChainName, Chain>) returns (longer: seq<Message>)
    requires Yields(msgs, Some(base)) && MssClampChain !in base
    ensures Yields(longer, Some(base[MssClampChain :=
              Chain("filter", ForwardHook, -150, [ClampRule(r, Iifname), ClampRule(r, Oifname)])]))
  {
    ghost var t: Table;
    longer, t := Push(msgs, NewChain(MssClampChain, "filter", ForwardHook, -150), Some(base));
    var keys := [Iifname, Oifname];
    ghost var all, clamps: seq<seq<Expr>> := [ClampRule(r, Iifname), ClampRule(r, Oifname)], [];
    for i := 0 to |keys|
      invariant t == Some(base[MssClampChain := Chain("filter", ForwardHook, -150, clamps)])
      invariant Yields(longer, t)
      invariant clamps == all[..i]
    {
      assert ClampRule(r, keys[i]) == all[i] && all[..i + 1] == all[..i] + [all[i]];
      longer, t := Push(longer, NewRule(MssClampChain, ClampRule(r, keys[i])), t);
      clamps := clamps + [all[i]];
      assert t.value[MssClampChain].rules == clamps;
      assert t.value == base[MssClampChain := Chain("filter", ForwardHook, -150, clamps)];
    }
    assert all[..2] == all;
  }

  /** One transaction after which an existing table, whatever it held, is the ruleset's. */
  method BuildBatch(r: Ruleset, little: bool) returns (msgs: seq<Message>)
    requires IsValid(r)
    ensures Yields(msgs, Some(TableOf(r, little)))
  {
    ghost var t: Table;
    msgs, t := BaseMessages(MasqRule(r), OutRule(r), BackRule(r, little));
    if r.mssClamp {
      msgs := AddClamps(msgs, r, t.value);
    }
    msgs, t := Push(msgs, BatchEnd, Some(TableOf(r, little)));
  }

  /** Create the table if it is absent, then replace it: whatever was there, the ruleset's table is there afterwards. */
  method ApplyRuleset(r: Ruleset, before: Table, little: bool) returns (after: Table)
    requires IsValid(r)
    ensures after == Some(TableOf(r, little))
  {
    var create := [BatchBegin, NewTable, BatchEnd];
    assert create[1..] == [NewTable, BatchEnd] && create[1..][1..] == [BatchEnd] && [BatchEnd][1..] == [];
    var present := Commit(create, before);
    assert present.Some?;
    var batch := BuildBatch(r, little);
    after := Commit(batch, present);
    assert ApplyAll(batch, Some(present.value)) == Some(Some(TableOf(r, little)));
  }
}
