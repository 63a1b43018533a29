/**
 Record and kernel over a node's whole life: passes, nics that come under new
 ids and go, and restarts that leave a record without any nic.
 */
module MirrorHistory {
  import opened Wrappers
  import opened Cidrs
  import opened HostInfos
  import opened StateFile
  import opened KernelMirror
  import opened CleanPasses

  datatype Node = Node(tables: Tables, nics: Nics)

  datatype Happening =
    | Passes(desired: set<RouteKey>)
    | Registers(nic: PeerId, ifindex: nat)
    | Loses(nics: set<PeerId>)

  /** What a pass may want: routes to prefixes that are the mesh's to write, through registered nics, one for each prefix. */
  ghost predicate WellWanted(desired: set<RouteKey>, nics: Nics, own: set<Cidr>) {
    && (forall k | k in desired :: k.nic in nics && k.cidr in own)
    && OneRouteEach(desired)
  }

  ghost predicate OneRouteEach(keys: set<RouteKey>) {
    forall a, b | a in keys && b in keys && a.cidr == b.cidr :: a == b
  }

  /**
   A pass whose removals succeed; a nic under an id and an interface not seen
   before; or nics that go, by themselves or all of them with the process, whose
   interfaces may take their routes along. The record outlives the nics.
   */
  ghost predicate Happens(n: Node, n': Node, h: Happening, own: set<Cidr>) {
    match h
    case Passes(desired) =>
      WellWanted(desired, n.nics, own) && n'.nics == n.nics && MayPassCleanly(n.tables, n'.tables, desired, n.nics)
    case Registers(nic, ifindex) =>
      && nic !in n.nics && ifindex !in n.nics.Values
      && (forall k | k in n.tables.record :: k.nic != nic)
      && (forall r | r in n.tables.routes :: r.ifindex != ifindex)
      && n' == Node(n.tables, n.nics[nic := ifindex])
    case Loses(nics) =>
      && n'.nics == n.nics - nics && n'.tables.record == n.tables.record
      && n'.tables.routes <= n.tables.routes
      && forall r | r in n.tables.routes :: r in n'.tables.routes || exists nic | nic in nics && nic in n.nics :: r.ifindex == n.nics[nic]
  }

  /** No nic and no record, and nobody else's route to a prefix that is the mesh's. */
  ghost predicate Starts(n: Node, own: set<Cidr>) {
    n.nics == map[] && n.tables.record == {} && forall r | r in n.tables.routes :: r.cidr !in own
  }

  ghost predicate IsLife(run: seq<Node>, own: set<Cidr>) {
    && run != [] && Starts(run[0], own)
    && forall i: nat | 0 < i < |run| :: Follows(run[i - 1], run[i], own)
  }

  ghost predicate Follows(n: Node, n': Node, own: set<Cidr>) {
    exists h :: Happens(n, n', h, own)
  }

  // ---- the invariant ---------------------------------------------------------------------------------------

  /** A route to a prefix of the mesh through an interface that no registered nic has. */
  ghost predicate IsStray(r: KernelRoute, n: Node, own: set<Cidr>) {
    r in n.tables.routes && r.cidr in own && r.ifindex !in n.nics.Values
  }

  ghost predicate HasLeftover(n: Node, cidr: Cidr) {
    exists k | k in n.tables.record :: k.cidr == cidr && k.nic !in n.nics
  }

  /** Record and kernel are in step; each prefix is recorded once; and every stray route is the only one a recorded leftover will remove. */
  ghost predicate InStep(n: Node, own: set<Cidr>) {
    && Injective(n.nics) && Mirrors(n.tables, n.nics)
    && OneRouteEach(n.tables.record) && (forall k | k in n.tables.record :: k.cidr in own)
    && (forall r | IsStray(r, n, own) :: HasLeftover(n, r.cidr))
    && (forall r, o | IsStray(r, n, own) && IsStray(o, n, own) && r.cidr == o.cidr :: r == o)
  }

  lemma RegisteringKeeps(n: Node, n': Node, h: Happening, own: set<Cidr>)
    requires InStep(n, own) && h.Registers? && Happens(n, n', h, own)
    ensures InStep(n', own)
  {
    forall nic, c | nic in n'.nics
      ensures RouteKey(nic, c) in n'.tables.record <==> KernelRoute(n'.nics[nic], c) in n'.tables.routes
    {
      assert nic == h.nic || (RouteKey(nic, c) in n.tables.record <==> KernelRoute(n.nics[nic], c) in n.tables.routes);
    }
    forall r | IsStray(r, n', own)
      ensures IsStray(r, n, own) && HasLeftover(n', r.cidr)
    {
      assert forall i | i in n.nics.Values :: i in n'.nics.Values by {
        assert forall nic | nic in n.nics :: n'.nics[nic] == n.nics[nic];
      }
      var k :| k in n.tables.record && k.cidr == r.cidr && k.nic !in n.nics;
    }
  }

  /** A route that becomes stray was recorded for a nic that goes, and is the only recorded one of its prefix. */
  lemma NewStray(n: Node, n': Node, h: Happening, own: set<Cidr>, r: KernelRoute) returns (k: RouteKey)
    requires InStep(n, own) && h.Loses? && Happens(n, n', h, own) && IsStray(r, n', own) && !IsStray(r, n, own)
    ensures k in n.tables.record && k.nic in n.nics && k.nic !in n'.nics && r == KernelRoute(n.nics[k.nic], k.cidr)
  {
    var nic :| nic in n.nics && n.nics[nic] == r.ifindex;
    k := RouteKey(nic, r.cidr);
    NotInKernel(n.tables, k, n.nics);
    assert forall other | other in n'.nics :: n'.nics[other] in n'.nics.Values;
  }

  lemma LosingKeepsMirror(n: Node, n': Node, h: Happening, own: set<Cidr>)
    requires InStep(n, own) && h.Loses? && Happens(n, n', h, own)
    ensures Injective(n'.nics) && Mirrors(n'.tables, n'.nics)
  {
    forall nic, c | nic in n'.nics
      ensures RouteKey(nic, c) in n'.tables.record <==> KernelRoute(n'.nics[nic], c) in n'.tables.routes
    {
      NotInKernel(n.tables, RouteKey(nic, c), n.nics);
    }
  }

  lemma LosingKeeps(n: Node, n': Node, h: Happening, own: set<Cidr>)
    requires InStep(n, own) && h.Loses? && Happens(n, n', h, own)
    ensures InStep(n', own)
  {
    LosingKeepsMirror(n, n', h, own);
    forall r | IsStray(r, n', own)
      ensures HasLeftover(n', r.cidr)
    {
      if IsStray(r, n, own) {
        var k :| k in n.tables.record && k.cidr == r.cidr && k.nic !in n.nics;
        assert k.nic !in n'.nics;
      } else {
        var k := NewStray(n, n', h, own, r);
      }
    }
    forall r, o | IsStray(r, n', own) && IsStray(o, n', own) && r.cidr == o.cidr
      ensures r == o
    {
      OneStray(n, n', h, own, r, o);
    }
  }

  lemma OneStray(n: Node, n': Node, h: Happening, own: set<Cidr>, r: KernelRoute, o: KernelRoute)
    requires InStep(n, own) && h.Loses? && Happens(n, n', h, own)
    requires IsStray(r, n', own) && IsStray(o, n', own) && r.cidr == o.cidr
    ensures r == o
  {
    if !IsStray(r, n, own) {
      var k := NewStray(n, n', h, own, r);
      if !IsStray(o, n, own) {
        var l := NewStray(n, n', h, own, o);
      }
    } else if !IsStray(o, n, own) {
      var l := NewStray(n, n', h, own, o);
    }
  }

  // ---- passes ------------------------------------------------------------------------------------------------

  /** Whatever routes there are to a prefix of the mesh, one recorded key accounts for them all. */
  lemma OneKeyAccounts(n: Node, own: set<Cidr>, k: RouteKey, r: KernelRoute)
    requires InStep(n, own) && k in n.tables.record && r in n.tables.routes && r.cidr == k.cidr
    ensures if k.nic in n.nics then r == KernelRoute(n.nics[k.nic], k.cidr) else IsStray(r, n, own)
  {
    if r.ifindex in n.nics.Values {
      var nic :| nic in n.nics && n.nics[nic] == r.ifindex;
      NotInKernel(n.tables, RouteKey(nic, r.cidr), n.nics);
      assert RouteKey(nic, r.cidr) == k;
    } else {
      assert IsStray(r, n, own);
      var l :| l in n.tables.record && l.cidr == r.cidr && l.nic !in n.nics;
      assert l == k;
    }
  }

  lemma NoKeyNoRoute(n: Node, own: set<Cidr>, cidr: Cidr)
    requires InStep(n, own) && cidr in own && forall k | k in n.tables.record :: k.cidr != cidr
    ensures At(n.tables.routes, cidr) == {}
  {
    forall r | r in n.tables.routes
      ensures r.cidr != cidr
    {
      assert !IsStray(r, n, own) || r.cidr != cidr;
      if nic :| nic in n.nics && n.nics[nic] == r.ifindex {
        NotInKernel(n.tables, RouteKey(nic, r.cidr), n.nics);
      }
    }
  }

  lemma OneOrNone(routes: set<KernelRoute>)
    requires forall r, o | r in routes && o in routes :: r == o
    ensures |routes| <= 1
  {
    if r :| r in routes {
      assert routes == {r};
    }
  }

  /** A recorded key that is removed leaves its prefix clear. */
  lemma KeyClears(n: Node, own: set<Cidr>, del: set<RouteKey>, k: RouteKey)
    requires InStep(n, own) && k in del && del <= n.tables.record
    ensures Clears(n.tables, del, k.cidr, n.nics)
    ensures k.nic !in n.nics ==> |At(n.tables.routes, k.cidr)| <= |Leftovers(del, k.cidr, n.nics)|
  {
    var routes := At(n.tables.routes, k.cidr);
    forall r | r in routes
      ensures if k.nic in n.nics then r == KernelRoute(n.nics[k.nic], k.cidr) else IsStray(r, n, own)
    {
      OneKeyAccounts(n, own, k, r);
    }
    if k.nic !in n.nics {
      OneOrNone(routes);
      SubsetCount({k}, Leftovers(del, k.cidr, n.nics));
    }
  }

  lemma LifeStartsClean(n: Node, own: set<Cidr>, desired: set<RouteKey>)
    requires InStep(n, own) && WellWanted(desired, n.nics, own)
    ensures CleanStart(n.tables, desired, n.nics)
  {
    var t := n.tables;
    var del, add := t.record - desired, desired - t.record;
    forall key | key in add && key.nic in n.nics
      ensures Clears(t, del, key.cidr, n.nics)
    {
      if k :| k in t.record && k.cidr == key.cidr {
        KeyClears(n, own, del, k);
      } else {
        NoKeyNoRoute(n, own, key.cidr);
      }
    }
  }

  /** What a pass adds leaves through registered nics. */
  lemma {:induction false} InstallsAreOurs(t: Tables, t': Tables, add: set<RouteKey>, nics: Nics)
    requires MayAdd(t, t', add, nics)
    ensures forall r | r in t'.routes :: r in t.routes || r.ifindex in nics.Values
    decreases add
  {
    if add != {} {
      var key, mid :| key in add && (mid == t || Adds(t, mid, key, nics)) && MayAdd(mid, t', add - {key}, nics);
      InstallsAreOurs(mid, t', add - {key}, nics);
    }
  }

  lemma NoStrayLeft(n: Node, mid: Tables, own: set<Cidr>, desired: set<RouteKey>, r: KernelRoute)
    requires InStep(n, own) && WellWanted(desired, n.nics, own)
    requires MayRemove(n.tables, mid, n.tables.record - desired, n.nics) && mid.record == n.tables.record * desired
    ensures !IsStray(r, Node(mid, n.nics), own)
  {
    var del := n.tables.record - desired;
    RemovalsOnlyRemove(n.tables, mid, del, n.nics);
    if IsStray(r, n, own) {
      var k :| k in n.tables.record && k.cidr == r.cidr && k.nic !in n.nics;
      KeyClears(n, own, del, k);
      assert mid.record == n.tables.record - del;
      LeftoversClear(n.tables, mid, del, k.cidr, n.nics);
      assert r in mid.routes ==> r in At(mid.routes, k.cidr);
    }
  }

  lemma PassingKeeps(n: Node, n': Node, h: Happening, own: set<Cidr>)
    requires InStep(n, own) && h.Passes? && Happens(n, n', h, own)
    ensures InStep(n', own)
  {
    var t, t', desired := n.tables, n'.tables, h.desired;
    LifeStartsClean(n, own, desired);
    CleanPassKeepsMirror(t, t', desired, n.nics);
    var mid :| MayRemove(t, mid, t.record - desired, n.nics) && MayAdd(mid, t', desired - t.record, n.nics);
    RemovalsOnlyRemove(t, mid, t.record - desired, n.nics);
    InstallsOnlyAdd(mid, t', desired - t.record, n.nics);
    InstallsAreOurs(mid, t', desired - t.record, n.nics);
    assert t'.record <= desired && mid.record == t.record * desired;
    forall r
      ensures !IsStray(r, n', own)
    {
      NoStrayLeft(n, mid, own, desired, r);
    }
  }

  /** At every moment of every such life record and kernel are in step. */
  lemma {:induction false} LifeStaysInStep(run: seq<Node>, own: set<Cidr>, i: nat)
    requires IsLife(run, own) && i < |run|
    ensures InStep(run[i], own)
    decreases i
  {
    if i != 0 {
      LifeStaysInStep(run, own, i - 1);
      var n, n' := run[i - 1], run[i];
      assert Follows(n, n', own);
      var h :| Happens(n, n', h, own);
      match h {
        case Passes(_) => PassingKeeps(n, n', h, own);
        case Registers(_, _) => RegisteringKeeps(n, n', h, own);
        case Loses(_) => LosingKeeps(n, n', h, own);
      }
    }
  }
}
