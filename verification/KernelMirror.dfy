/**
 The kernel's routing table beside the reconciler's record of it: what one call
 may do to each, what a whole pass may, and exactly when they stay in step.
 */
module KernelMirror {
  import opened Wrappers
  import opened Cidrs
  import opened HostInfos
  import opened StateFile

  datatype KernelRoute = KernelRoute(ifindex: nat, cidr: Cidr)

  /** The registered nics and their interfaces. */
  type Nics = map<PeerId, nat>

  datatype Tables = Tables(routes: set<KernelRoute>, record: set<RouteKey>)

  ghost predicate Injective(nics: Nics) {
    forall a, b | a in nics && b in nics && nics[a] == nics[b] :: a == b
  }

  /**
   Through every registered nic the kernel has exactly the recorded routes.
   Nothing is said of routes through other interfaces, nor of recorded nics that
   are not registered: leftovers of an earlier run are such.
   */
  ghost predicate Mirrors(t: Tables, nics: Nics) {
    forall nic, c | nic in nics :: RouteKey(nic, c) in t.record <==> KernelRoute(nics[nic], c) in t.routes
  }

  // ---- single calls -----------------------------------------------------------------------------

  /** An installation that succeeds: the route comes, or a route to the same prefix "already exists", through whatever interface. */
  ghost predicate MayInstall(routes: set<KernelRoute>, routes': set<KernelRoute>, r: KernelRoute) {
    || routes' == routes + {r}
    || (routes' == routes && exists o | o in routes :: o.cidr == r.cidr)
  }

  predicate Matches(r: KernelRoute, cidr: Cidr, ifindex: Option<nat>) {
    r.cidr == cidr && (ifindex == None || ifindex == Some(r.ifindex))
  }

  /** A removal that succeeds: one matching route goes, or there was none. */
  ghost predicate MayUninstall(routes: set<KernelRoute>, routes': set<KernelRoute>, cidr: Cidr, ifindex: Option<nat>) {
    || (exists r | r in routes && Matches(r, cidr, ifindex) :: routes' == routes - {r})
    || (routes' == routes && forall r | r in routes :: !Matches(r, cidr, ifindex))
  }

  function InterfaceOf(nics: Nics, nic: PeerId): Option<nat> {
    if nic in nics then Some(nics[nic]) else None
  }

  /** A removal the reconciler records. Without a registered nic it has no interface to filter by. */
  ghost predicate Removes(t: Tables, t': Tables, key: RouteKey, nics: Nics) {
    && MayUninstall(t.routes, t'.routes, key.cidr, InterfaceOf(nics, key.nic))
    && t'.record == t.record - {key}
  }

  /** An installation the reconciler records. */
  ghost predicate Adds(t: Tables, t': Tables, key: RouteKey, nics: Nics) {
    && key.nic in nics
    && MayInstall(t.routes, t'.routes, KernelRoute(nics[key.nic], key.cidr))
    && t'.record == t.record + {key}
  }

  /** No recorded route of a registered nic goes to this prefix. */
  ghost predicate NoTwin(record: set<RouteKey>, cidr: Cidr, nics: Nics) {
    forall k | k in record && k.cidr == cidr :: k.nic !in nics
  }

  /**
   Removing a route keeps the tables in step, whichever route the kernel picks,
   if and only if its nic is registered or no registered nic has a twin of it.
   */
  lemma RemovalKeepsMirrorIff(t: Tables, key: RouteKey, nics: Nics)
    requires Injective(nics) && Mirrors(t, nics)
    ensures (forall t' | Removes(t, t', key, nics) :: Mirrors(t', nics))
            <==> key.nic in nics || NoTwin(t.record, key.cidr, nics)
  {
    if key.nic !in nics && !NoTwin(t.record, key.cidr, nics) {
      var k :| k in t.record && k.cidr == key.cidr && k.nic in nics;
      TwinIsHit(t, key, k, nics);
    } else {
      forall t' | Removes(t, t', key, nics)
        ensures Mirrors(t', nics)
      {
        RemovalKeepsOthers(t, t', key, nics);
      }
    }
  }

  /** The kernel may pick the route of a twin that stays recorded. */
  lemma TwinIsHit(t: Tables, key: RouteKey, k: RouteKey, nics: Nics)
    requires Mirrors(t, nics) && key.nic !in nics
    requires k in t.record && k.cidr == key.cidr && k.nic in nics
    ensures var t' := Tables(t.routes - {KernelRoute(nics[k.nic], k.cidr)}, t.record - {key});
            Removes(t, t', key, nics) && !Mirrors(t', nics)
  {
    var r := KernelRoute(nics[k.nic], k.cidr);
    assert RouteKey(k.nic, k.cidr) == k;
    assert r in t.routes && Matches(r, key.cidr, None);
  }

  lemma RemovalKeepsOthers(t: Tables, t': Tables, key: RouteKey, nics: Nics)
    requires Injective(nics) && Mirrors(t, nics) && Removes(t, t', key, nics)
    requires key.nic in nics || NoTwin(t.record, key.cidr, nics)
    ensures Mirrors(t', nics)
  {
    forall nic, c | nic in nics
      ensures RouteKey(nic, c) in t'.record <==> KernelRoute(nics[nic], c) in t'.routes
    {
      assert RouteKey(nic, c) in t.record <==> KernelRoute(nics[nic], c) in t.routes;
      assert Matches(KernelRoute(nics[nic], c), c, Some(nics[nic]));
    }
  }

  /**
   Adding a new route keeps the tables in step, whatever the kernel answers, if
   and only if the kernel has no route to that prefix yet.
   */
  lemma InstallKeepsMirrorIff(t: Tables, key: RouteKey, nics: Nics)
    requires Injective(nics) && Mirrors(t, nics) && key.nic in nics && key !in t.record
    ensures (forall t' | Adds(t, t', key, nics) :: Mirrors(t', nics))
            <==> forall r | r in t.routes :: r.cidr != key.cidr
  {
    var own := KernelRoute(nics[key.nic], key.cidr);
    assert RouteKey(key.nic, key.cidr) == key && own !in t.routes;
    if r :| r in t.routes && r.cidr == key.cidr {
      var t' := Tables(t.routes, t.record + {key});
      assert Adds(t, t', key, nics) && !Mirrors(t', nics);
    } else {
      forall t' | Adds(t, t', key, nics)
        ensures Mirrors(t', nics)
      {
        InstallKeepsOthers(t, t', key, nics);
      }
    }
  }

  lemma InstallKeepsOthers(t: Tables, t': Tables, key: RouteKey, nics: Nics)
    requires Injective(nics) && Mirrors(t, nics) && Adds(t, t', key, nics)
    requires forall r | r in t.routes :: r.cidr != key.cidr
    ensures Mirrors(t', nics)
  {
    forall nic, c | nic in nics
      ensures RouteKey(nic, c) in t'.record <==> KernelRoute(nics[nic], c) in t'.routes
    {
      assert RouteKey(nic, c) in t.record <==> KernelRoute(nics[nic], c) in t.routes;
    }
  }

  // ---- whole passes --------------------------------------------------------------------------------

  /** Trying to remove every route of `del`, in any order; each attempt may fail. */
  ghost predicate MayRemove(t: Tables, t': Tables, del: set<RouteKey>, nics: Nics)
    decreases del
  {
    if del == {} then t' == t
    else exists key, mid | key in del ::
      (mid == t || Removes(t, mid, key, nics)) && MayRemove(mid, t', del - {key}, nics)
  }

  /** Trying to add every route of `add`, in any order; each attempt may fail, or be skipped for want of a nic. */
  ghost predicate MayAdd(t: Tables, t': Tables, add: set<RouteKey>, nics: Nics)
    decreases add
  {
    if add == {} then t' == t
    else exists key, mid | key in add ::
      (mid == t || Adds(t, mid, key, nics)) && MayAdd(mid, t', add - {key}, nics)
  }

  /** What one pass of the reconciler may do. */
  ghost predicate MayPass(t: Tables, t': Tables, desired: set<RouteKey>, nics: Nics) {
    exists mid :: MayRemove(t, mid, t.record - desired, nics) && MayAdd(mid, t', desired - t.record, nics)
  }

  /** No leftover to be removed shares its prefix with a route of `kept` whose nic is registered. */
  ghost predicate NoStaleTwin(kept: set<RouteKey>, del: set<RouteKey>, nics: Nics) {
    forall key | key in del && key.nic !in nics :: NoTwin(kept, key.cidr, nics)
  }

  /** No prefix to be added is wanted through two nics. */
  ghost predicate OneNicEach(add: set<RouteKey>, nics: Nics) {
    forall a, b | a in add && b in add && a.nic in nics && b.nic in nics && a.cidr == b.cidr :: a == b
  }

  /** No prefix to be added has a kernel route already. */
  ghost predicate Unrouted(routes: set<KernelRoute>, add: set<RouteKey>, nics: Nics) {
    forall key, r | key in add && key.nic in nics && r in routes :: r.cidr != key.cidr
  }

  /** What a pass needs to keep kernel and record in step whichever of its calls fail. */
  ghost predicate SafeStart(t: Tables, desired: set<RouteKey>, nics: Nics) {
    var del, add := t.record - desired, desired - t.record;
    NoStaleTwin(t.record, del, nics) && OneNicEach(add, nics) && Unrouted(t.routes, add, nics)
  }

  /**
   Whatever order a pass takes and whichever of its calls fail, it keeps record
   and kernel in step: if and only if it starts from a state like that.
   */
  lemma PassKeepsMirrorIff(t: Tables, desired: set<RouteKey>, nics: Nics)
    requires Injective(nics) && Mirrors(t, nics)
    ensures (forall t' | MayPass(t, t', desired, nics) :: Mirrors(t', nics)) <==> SafeStart(t, desired, nics)
  {
    var del, add := t.record - desired, desired - t.record;
    if !NoStaleTwin(t.record, del, nics) {
      var key :| key in del && key.nic !in nics && !NoTwin(t.record, key.cidr, nics);
      var k :| k in t.record && k.cidr == key.cidr && k.nic in nics;
      TwinIsHit(t, key, k, nics);
      var mid := Tables(t.routes - {KernelRoute(nics[k.nic], k.cidr)}, t.record - {key});
      AllMayFail(mid, del - {key}, nics);
      AllMayFail(mid, add, nics);
      assert MayRemove(t, mid, del, nics);
      assert MayPass(t, mid, desired, nics);
    } else if !Unrouted(t.routes, add, nics) {
      var key, r :| key in add && key.nic in nics && r in t.routes && r.cidr == key.cidr;
      NotInKernel(t, key, nics);
      var t' := AnswersExists(t, key, add, nics);
      AllMayFail(t, del, nics);
      assert MayPass(t, t', desired, nics);
    } else if !OneNicEach(add, nics) {
      var a, b :| a in add && b in add && a.nic in nics && b.nic in nics && a.cidr == b.cidr && a != b;
      NotInKernel(t, a, nics);
      var t' := SecondAnswersExists(t, a, b, add, nics);
      AllMayFail(t, del, nics);
      assert MayPass(t, t', desired, nics);
    } else {
      forall t' | MayPass(t, t', desired, nics)
        ensures Mirrors(t', nics)
      {
        var mid :| MayRemove(t, mid, del, nics) && MayAdd(mid, t', add, nics);
        RemovalsKeepMirror(t, mid, del, nics);
        InstallsKeepMirror(mid, t', add, nics);
      }
    }
  }

  lemma NotInKernel(t: Tables, key: RouteKey, nics: Nics)
    requires Mirrors(t, nics) && key.nic in nics
    ensures key in t.record <==> KernelRoute(nics[key.nic], key.cidr) in t.routes
  {
    assert RouteKey(key.nic, key.cidr) == key;
  }

  lemma {:induction false} AllMayFail(t: Tables, keys: set<RouteKey>, nics: Nics)
    ensures MayRemove(t, t, keys, nics) && MayAdd(t, t, keys, nics)
    decreases keys
  {
    if keys != {} {
      var key :| key in keys;
      AllMayFail(t, keys - {key}, nics);
    }
  }

  lemma AnswersExists(t: Tables, key: RouteKey, add: set<RouteKey>, nics: Nics) returns (t': Tables)
    requires key in add && key.nic in nics && KernelRoute(nics[key.nic], key.cidr) !in t.routes
    requires exists r | r in t.routes :: r.cidr == key.cidr
    ensures MayAdd(t, t', add, nics) && t'.record <= t.record + add && !Mirrors(t', nics)
  {
    t' := Tables(t.routes, t.record + {key});
    assert RouteKey(key.nic, key.cidr) == key;
    AllMayFail(t', add - {key}, nics);
    assert Adds(t, t', key, nics);
  }

  lemma SecondAnswersExists(t: Tables, a: RouteKey, b: RouteKey, add: set<RouteKey>, nics: Nics) returns (t': Tables)
    requires Injective(nics) && a in add && b in add && a != b && a.nic in nics && b.nic in nics && a.cidr == b.cidr
    requires KernelRoute(nics[a.nic], a.cidr) !in t.routes
    ensures MayAdd(t, t', add, nics) && t'.record <= t.record + add && !Mirrors(t', nics)
  {
    var r := KernelRoute(nics[b.nic], b.cidr);
    var mid := Tables(t.routes + {r}, t.record + {b});
    assert r in mid.routes;
    t' := AnswersExists(mid, a, add - {b}, nics);
    assert Adds(t, mid, b, nics);
  }

  lemma {:induction false} RemovalsKeepMirror(t: Tables, t': Tables, del: set<RouteKey>, nics: Nics)
    requires Injective(nics) && Mirrors(t, nics) && MayRemove(t, t', del, nics)
    requires NoStaleTwin(t.record, del, nics)
    ensures Mirrors(t', nics) && t'.routes <= t.routes && t'.record <= t.record
    decreases del
  {
    if del != {} {
      var key, mid :| key in del && (mid == t || Removes(t, mid, key, nics)) && MayRemove(mid, t', del - {key}, nics);
      if mid != t {
        RemovalKeepsOthers(t, mid, key, nics);
      }
      RemovalsKeepMirror(mid, t', del - {key}, nics);
    }
  }

  lemma {:induction false} InstallsKeepMirror(t: Tables, t': Tables, add: set<RouteKey>, nics: Nics)
    requires Injective(nics) && Mirrors(t, nics) && MayAdd(t, t', add, nics)
    requires OneNicEach(add, nics) && Unrouted(t.routes, add, nics)
    ensures Mirrors(t', nics)
    decreases add
  {
    if add != {} {
      var key, mid :| key in add && (mid == t || Adds(t, mid, key, nics)) && MayAdd(mid, t', add - {key}, nics);
      if mid != t {
        InstallKeepsOthers(t, mid, key, nics);
        assert mid.routes <= t.routes + {KernelRoute(nics[key.nic], key.cidr)};
      }
      InstallsKeepMirror(mid, t', add - {key}, nics);
    }
  }

  lemma {:induction false} RemovalsOnlyRemove(t: Tables, t': Tables, del: set<RouteKey>, nics: Nics)
    requires MayRemove(t, t', del, nics)
    ensures t.record - del <= t'.record <= t.record && t'.routes <= t.routes
    decreases del
  {
    if del != {} {
      var key, mid :| key in del && (mid == t || Removes(t, mid, key, nics)) && MayRemove(mid, t', del - {key}, nics);
      RemovalsOnlyRemove(mid, t', del - {key}, nics);
    }
  }

  lemma {:induction false} InstallsOnlyAdd(t: Tables, t': Tables, add: set<RouteKey>, nics: Nics)
    requires MayAdd(t, t', add, nics)
    ensures t.record <= t'.record <= t.record + add
    decreases add
  {
    if add != {} {
      var key, mid :| key in add && (mid == t || Adds(t, mid, key, nics)) && MayAdd(mid, t', add - {key}, nics);
      InstallsOnlyAdd(mid, t', add - {key}, nics);
    }
  }

  // ---- two ways to lose a live route for good -----------------------------------------------------------

  /** At its goal a pass has nothing to do, so what the kernel lacks then stays lacking. */
  lemma NothingHeals(t: Tables, t': Tables, nics: Nics)
    requires MayPass(t, t', t.record, nics)
    ensures t' == t
  {
    assert t.record - t.record == {};
  }

  lemma OnlyRemoval(t: Tables, t': Tables, key: RouteKey, nics: Nics)
    requires MayRemove(t, t', {key}, nics)
    ensures t' == t || Removes(t, t', key, nics)
  {
    var k, mid :| k in {key} && (mid == t || Removes(t, mid, k, nics)) && MayRemove(mid, t', {key} - {k}, nics);
    assert {key} - {k} == {};
  }

  /**
   After a restart the nic has a new id, and the old one is left over in the
   record. If the first pass fails to remove the leftover, the second removes the
   new nic's route instead, and no later pass brings it back.
   */
  lemma LeftoverTakesTheLiveRoute(before: PeerId, now: PeerId, cidr: Cidr, i: nat)
    requires before != now
    ensures var nics, desired := map[now := i], {RouteKey(now, cidr)};
            var t0 := Tables({}, {RouteKey(before, cidr)});
            var t1 := Tables({KernelRoute(i, cidr)}, {RouteKey(before, cidr), RouteKey(now, cidr)});
            && Mirrors(t0, nics) && MayPass(t0, t1, desired, nics) && Mirrors(t1, nics)
            && forall t2 | MayPass(t1, t2, desired, nics) && t2.record == desired ::
                 t2.routes == {} && !Mirrors(t2, nics) && forall t3 | MayPass(t2, t3, desired, nics) :: t3 == t2
  {
    var nics, left, live := map[now := i], RouteKey(before, cidr), RouteKey(now, cidr);
    var r := KernelRoute(i, cidr);
    var t0, t1 := Tables({}, {left}), Tables({r}, {left, live});
    AllMayFail(t0, {left}, nics);
    assert {left} - {live} == {left} && {live} - {left} == {live} && {live} - {live} == {};
    assert Adds(t0, t1, live, nics);
    assert MayAdd(t1, t1, {}, nics);
    assert MayAdd(t0, t1, {live}, nics);
    forall t2 | MayPass(t1, t2, {live}, nics) && t2.record == {live}
      ensures t2.routes == {} && !Mirrors(t2, nics) && forall t3 | MayPass(t2, t3, {live}, nics) :: t3 == t2
    {
      assert t1.record - {live} == {left} && {live} - t1.record == {};
      var mid :| MayRemove(t1, mid, {left}, nics) && MayAdd(mid, t2, {}, nics);
      OnlyRemoval(t1, mid, left, nics);
      assert Matches(r, cidr, None);
      assert live in t2.record && r !in t2.routes;
      forall t3 | MayPass(t2, t3, {live}, nics)
        ensures t3 == t2
      {
        NothingHeals(t2, t3, nics);
      }
    }
  }

  /**
   A prefix moves from one nic to another while its removal fails: "already
   exists" records the new route, the next pass removes the old one, and no
   route is left, for good.
   */
  lemma FailedRemovalHidesTheNewRoute(a: PeerId, b: PeerId, cidr: Cidr, i: nat, j: nat)
    requires a != b && i != j
    ensures var nics, desired := map[a := i, b := j], {RouteKey(b, cidr)};
            var t0 := Tables({KernelRoute(i, cidr)}, {RouteKey(a, cidr)});
            var t1 := Tables({KernelRoute(i, cidr)}, {RouteKey(a, cidr), RouteKey(b, cidr)});
            && Mirrors(t0, nics) && MayPass(t0, t1, desired, nics)
            && forall t2 | MayPass(t1, t2, desired, nics) && t2.record == desired ::
                 t2.routes == {} && forall t3 | MayPass(t2, t3, desired, nics) :: t3 == t2
  {
    var nics, left, live := map[a := i, b := j], RouteKey(a, cidr), RouteKey(b, cidr);
    var r := KernelRoute(i, cidr);
    var t0, t1 := Tables({r}, {left}), Tables({r}, {left, live});
    AllMayFail(t0, {left}, nics);
    assert {left} - {live} == {left} && {live} - {left} == {live} && {live} - {live} == {};
    assert r in t0.routes && Adds(t0, t1, live, nics);
    assert MayAdd(t1, t1, {}, nics);
    assert MayAdd(t0, t1, {live}, nics);
    forall t2 | MayPass(t1, t2, {live}, nics) && t2.record == {live}
      ensures t2.routes == {} && forall t3 | MayPass(t2, t3, {live}, nics) :: t3 == t2
    {
      assert t1.record - {live} == {left} && {live} - t1.record == {};
      var mid :| MayRemove(t1, mid, {left}, nics) && MayAdd(mid, t2, {}, nics);
      OnlyRemoval(t1, mid, left, nics);
      assert Matches(r, cidr, Some(i));
      forall t3 | MayPass(t2, t3, {live}, nics)
        ensures t3 == t2
      {
        NothingHeals(t2, t3, nics);
      }
    }
  }
}
