/**
 Passes of the reconciler whose removals all succeed: exactly from which states
 they keep record and kernel in step.
 */
module CleanPasses {
  import opened Wrappers
  import opened Cidrs
  import opened HostInfos
  import opened StateFile
  import opened KernelMirror

  // ---- the condition ---------------------------------------------------------------------------------

  function At(routes: set<KernelRoute>, cidr: Cidr): set<KernelRoute> {
    set r | r in routes && r.cidr == cidr
  }

  /** The routes to be removed from a prefix without knowing their interface. */
  function Leftovers(del: set<RouteKey>, cidr: Cidr, nics: Nics): set<RouteKey> {
    set k | k in del && k.cidr == cidr && k.nic !in nics
  }

  /** `r` is the kernel's route for a key of `del` whose nic is registered. */
  ghost predicate IsRouteOf(r: KernelRoute, del: set<RouteKey>, nics: Nics) {
    exists k | k in del && k.nic in nics :: r == KernelRoute(nics[k.nic], k.cidr)
  }

  /** There are leftovers enough to clear the prefix of every route, or every route to it is removed by its interface. */
  ghost predicate Clears(t: Tables, del: set<RouteKey>, cidr: Cidr, nics: Nics) {
    || |At(t.routes, cidr)| <= |Leftovers(del, cidr, nics)|
    || forall r | r in At(t.routes, cidr) :: IsRouteOf(r, del, nics)
  }

  ghost predicate MakesWay(t: Tables, del: set<RouteKey>, add: set<RouteKey>, nics: Nics) {
    forall key | key in add && key.nic in nics :: Clears(t, del, key.cidr, nics)
  }

  /** What a pass needs to keep kernel and record in step when none of its removals fails. */
  ghost predicate CleanStart(t: Tables, desired: set<RouteKey>, nics: Nics) {
    var del, add := t.record - desired, desired - t.record;
    && NoStaleTwin(t.record - del, del, nics)
    && OneNicEach(add, nics)
    && MakesWay(t, del, add, nics)
  }

  /** A pass in which every removal succeeded. */
  ghost predicate MayPassCleanly(t: Tables, t': Tables, desired: set<RouteKey>, nics: Nics) {
    MayPass(t, t', desired, nics) && t'.record !! t.record - desired
  }

  /**
   Whatever order such a pass takes, whichever routes the kernel picks and
   whichever additions fail, record and kernel stay in step: if and only if it
   makes way for everything it adds, adds no prefix twice, and removes no leftover
   that shares its prefix with a registered nic's route that stays.
   */
  lemma CleanPassKeepsMirrorIff(t: Tables, desired: set<RouteKey>, nics: Nics)
    requires Injective(nics) && Mirrors(t, nics)
    ensures (forall t' | MayPassCleanly(t, t', desired, nics) :: Mirrors(t', nics)) <==> CleanStart(t, desired, nics)
  {
    if CleanStart(t, desired, nics) {
      forall t' | MayPassCleanly(t, t', desired, nics)
        ensures Mirrors(t', nics)
      {
        CleanPassKeepsMirror(t, t', desired, nics);
      }
    } else {
      var t' := CleanPassBreaks(t, desired, nics);
    }
  }

  // ---- it suffices --------------------------------------------------------------------------------------

  /** In step, except perhaps for the routes of `open`. */
  ghost predicate MirrorsBut(t: Tables, open: set<RouteKey>, nics: Nics) {
    forall nic, c | nic in nics && RouteKey(nic, c) !in open ::
      RouteKey(nic, c) in t.record <==> KernelRoute(nics[nic], c) in t.routes
  }

  /** If every removal succeeds, only leftovers that share a prefix with a route that stays can do harm. */
  lemma {:induction false} CleanRemovalsKeepMirror(t: Tables, t': Tables, del: set<RouteKey>, nics: Nics)
    requires Injective(nics) && MirrorsBut(t, del, nics) && MayRemove(t, t', del, nics)
    requires del <= t.record && t'.record == t.record - del
    requires NoStaleTwin(t'.record, del, nics)
    ensures Mirrors(t', nics)
    decreases del
  {
    if del != {} {
      var key, mid :| key in del && (mid == t || Removes(t, mid, key, nics)) && MayRemove(mid, t', del - {key}, nics);
      RemovalsOnlyRemove(mid, t', del - {key}, nics);
      assert key !in mid.record;
      CleanRemovalKeepsRest(t, mid, key, del, nics);
      CleanRemovalsKeepMirror(mid, t', del - {key}, nics);
    }
  }

  lemma CleanRemovalKeepsRest(t: Tables, mid: Tables, key: RouteKey, del: set<RouteKey>, nics: Nics)
    requires Injective(nics) && MirrorsBut(t, del, nics) && Removes(t, mid, key, nics) && key in del
    requires NoStaleTwin(t.record - del, del, nics)
    ensures MirrorsBut(mid, del - {key}, nics)
  {
    forall nic, c | nic in nics && RouteKey(nic, c) !in del - {key}
      ensures RouteKey(nic, c) in mid.record <==> KernelRoute(nics[nic], c) in mid.routes
    {
      var k, r := RouteKey(nic, c), KernelRoute(nics[nic], c);
      assert Matches(r, c, Some(nics[nic]));
      if k != key {
        assert k in t.record <==> r in t.routes;
        assert k in t.record ==> k in t.record - del;
      }
    }
  }

  lemma SubsetCount<T>(a: set<T>, b: set<T>)
    requires a <= b
    ensures |a| <= |b|
  {
    assert b == a + (b - a);
  }

  /** One removal takes as many routes from the prefix as leftovers, while there are any. */
  lemma LeftoverTakesOne(t: Tables, mid: Tables, key: RouteKey, del: set<RouteKey>, cidr: Cidr, nics: Nics)
    requires Removes(t, mid, key, nics) && key in del
    requires |At(t.routes, cidr)| <= |Leftovers(del, cidr, nics)|
    ensures |At(mid.routes, cidr)| <= |Leftovers(del - {key}, cidr, nics)|
  {
    if key in Leftovers(del, cidr, nics) {
      assert Leftovers(del - {key}, cidr, nics) == Leftovers(del, cidr, nics) - {key};
      if r :| r in t.routes && Matches(r, key.cidr, None) && mid.routes == t.routes - {r} {
        assert At(mid.routes, cidr) == At(t.routes, cidr) - {r};
      } else {
        assert forall r | r in t.routes :: !Matches(r, cidr, None);
        assert At(mid.routes, cidr) == {};
      }
    } else {
      assert Leftovers(del - {key}, cidr, nics) == Leftovers(del, cidr, nics);
      SubsetCount(At(mid.routes, cidr), At(t.routes, cidr));
    }
  }

  lemma CleanStep(t: Tables, mid: Tables, t': Tables, key: RouteKey, del: set<RouteKey>, nics: Nics)
    requires key in del && (mid == t || Removes(t, mid, key, nics)) && MayRemove(mid, t', del - {key}, nics)
    requires del <= t.record && t'.record == t.record - del
    ensures Removes(t, mid, key, nics) && del - {key} <= mid.record && t'.record == mid.record - (del - {key})
  {
    RemovalsOnlyRemove(mid, t', del - {key}, nics);
    assert key !in mid.record;
  }

  lemma {:induction false} LeftoversClear(t: Tables, t': Tables, del: set<RouteKey>, cidr: Cidr, nics: Nics)
    requires MayRemove(t, t', del, nics) && del <= t.record && t'.record == t.record - del
    requires |At(t.routes, cidr)| <= |Leftovers(del, cidr, nics)|
    ensures At(t'.routes, cidr) == {}
    decreases del
  {
    if del == {} {
      assert Leftovers(del, cidr, nics) == {};
    } else {
      var key, mid :| key in del && (mid == t || Removes(t, mid, key, nics)) && MayRemove(mid, t', del - {key}, nics);
      CleanStep(t, mid, t', key, del, nics);
      LeftoverTakesOne(t, mid, key, del, cidr, nics);
      LeftoversClear(mid, t', del - {key}, cidr, nics);
    }
  }

  /** Where the condition holds, nothing is left of the prefix after the removals. */
  lemma ClearedIsUnrouted(t: Tables, mid: Tables, del: set<RouteKey>, cidr: Cidr, nics: Nics)
    requires MayRemove(t, mid, del, nics) && del <= t.record && mid.record == t.record - del
    requires Mirrors(mid, nics) && Clears(t, del, cidr, nics)
    ensures forall r | r in mid.routes :: r.cidr != cidr
  {
    if |At(t.routes, cidr)| <= |Leftovers(del, cidr, nics)| {
      LeftoversClear(t, mid, del, cidr, nics);
      assert forall r | r in mid.routes && r.cidr == cidr :: r in At(mid.routes, cidr);
    } else {
      RemovalsOnlyRemove(t, mid, del, nics);
      forall k | k in del && k.nic in nics
        ensures KernelRoute(nics[k.nic], k.cidr) !in mid.routes
      {
        NotInKernel(mid, k, nics);
      }
      forall r | r in mid.routes
        ensures r.cidr != cidr
      {
        assert r.cidr == cidr ==> r in At(t.routes, cidr);
      }
    }
  }

  lemma CleanPassKeepsMirror(t: Tables, t': Tables, desired: set<RouteKey>, nics: Nics)
    requires Injective(nics) && Mirrors(t, nics) && CleanStart(t, desired, nics) && MayPassCleanly(t, t', desired, nics)
    ensures Mirrors(t', nics)
  {
    var del, add := t.record - desired, desired - t.record;
    var mid :| MayRemove(t, mid, del, nics) && MayAdd(mid, t', add, nics);
    RemovalsOnlyRemove(t, mid, del, nics);
    InstallsOnlyAdd(mid, t', add, nics);
    assert mid.record == t.record - del;
    CleanRemovalsKeepMirror(t, mid, del, nics);
    forall key | key in add && key.nic in nics
      ensures forall r | r in mid.routes :: r.cidr != key.cidr
    {
      ClearedIsUnrouted(t, mid, del, key.cidr, nics);
    }
    InstallsKeepMirror(mid, t', add, nics);
  }

  // ---- it is needed -----------------------------------------------------------------------------------------

  /** Some way of removing all of `del`, with success, that spares the route `f`. */
  lemma {:induction false} SparingRemoval(t: Tables, del: set<RouteKey>, nics: Nics, f: KernelRoute) returns (t': Tables)
    requires f in t.routes && !IsRouteOf(f, del, nics)
    requires Leftovers(del, f.cidr, nics) == {} || |At(t.routes, f.cidr)| > |Leftovers(del, f.cidr, nics)|
    ensures MayRemove(t, t', del, nics) && t'.record == t.record - del && f in t'.routes && t'.routes <= t.routes
    decreases del
  {
    if del == {} {
      t' := t;
    } else {
      var key: RouteKey;
      if Leftovers(del, f.cidr, nics) != {} {
        key :| key in Leftovers(del, f.cidr, nics);
      } else {
        key :| key in del;
      }
      var mid := SparingStep(t, del, key, nics, f);
      t' := SparingRemoval(mid, del - {key}, nics, f);
    }
  }

  lemma SparingStep(t: Tables, del: set<RouteKey>, key: RouteKey, nics: Nics, f: KernelRoute) returns (mid: Tables)
    requires f in t.routes && !IsRouteOf(f, del, nics) && key in del
    requires if Leftovers(del, f.cidr, nics) == {} then true
             else key in Leftovers(del, f.cidr, nics) && |At(t.routes, f.cidr)| > |Leftovers(del, f.cidr, nics)|
    ensures Removes(t, mid, key, nics) && f in mid.routes && mid.routes <= t.routes
    ensures !IsRouteOf(f, del - {key}, nics)
    ensures Leftovers(del - {key}, f.cidr, nics) == {}
            || |At(mid.routes, f.cidr)| > |Leftovers(del - {key}, f.cidr, nics)|
  {
    if key in Leftovers(del, f.cidr, nics) {
      var r := AnotherRoute(t.routes, del, key, nics, f);
      mid := Tables(t.routes - {r}, t.record - {key});
      assert Matches(r, key.cidr, None);
      assert Leftovers(del - {key}, f.cidr, nics) == Leftovers(del, f.cidr, nics) - {key};
      assert At(mid.routes, f.cidr) == At(t.routes, f.cidr) - {r};
    } else {
      mid := AnyRemoval(t, key, nics);
      assert Leftovers(del - {key}, f.cidr, nics) == {};
    }
  }

  lemma AnotherRoute(routes: set<KernelRoute>, del: set<RouteKey>, key: RouteKey, nics: Nics, f: KernelRoute) returns (r: KernelRoute)
    requires f in routes && key in Leftovers(del, f.cidr, nics) && |At(routes, f.cidr)| > |Leftovers(del, f.cidr, nics)|
    ensures r in routes && r.cidr == f.cidr && r != f
  {
    SubsetCount({key}, Leftovers(del, f.cidr, nics));
    if At(routes, f.cidr) - {f} == {} {
      SubsetCount(At(routes, f.cidr), {f});
      assert false;
    }
    r :| r in At(routes, f.cidr) - {f};
  }

  /** A removal that succeeds; it touches no route that does not match. */
  lemma AnyRemoval(t: Tables, key: RouteKey, nics: Nics) returns (mid: Tables)
    ensures Removes(t, mid, key, nics) && mid.routes <= t.routes
    ensures forall r | r in t.routes && !Matches(r, key.cidr, InterfaceOf(nics, key.nic)) :: r in mid.routes
  {
    if r :| r in t.routes && Matches(r, key.cidr, InterfaceOf(nics, key.nic)) {
      mid := Tables(t.routes - {r}, t.record - {key});
    } else {
      mid := Tables(t.routes, t.record - {key});
    }
  }

  lemma {:induction false} AnyCleanRemoval(t: Tables, del: set<RouteKey>, nics: Nics) returns (t': Tables)
    ensures MayRemove(t, t', del, nics) && t'.record == t.record - del && t'.routes <= t.routes
    decreases del
  {
    if del == {} {
      t' := t;
    } else {
      var key :| key in del;
      var mid := AnyRemoval(t, key, nics);
      t' := AnyCleanRemoval(mid, del - {key}, nics);
    }
  }

  lemma StaleTwinBreaks(t: Tables, del: set<RouteKey>, nics: Nics) returns (mid: Tables)
    requires Mirrors(t, nics) && !NoStaleTwin(t.record - del, del, nics)
    ensures MayRemove(t, mid, del, nics) && mid.record == t.record - del && !Mirrors(mid, nics)
  {
    var key :| key in del && key.nic !in nics && !NoTwin(t.record - del, key.cidr, nics);
    var k :| k in t.record - del && k.cidr == key.cidr && k.nic in nics;
    TwinIsHit(t, key, k, nics);
    var hit := Tables(t.routes - {KernelRoute(nics[k.nic], k.cidr)}, t.record - {key});
    mid := AnyCleanRemoval(hit, del - {key}, nics);
    assert MayRemove(t, mid, del, nics);
    NotInKernel(t, k, nics);
    assert RouteKey(k.nic, k.cidr) in mid.record;
  }

  lemma OccupiedBreaks(t: Tables, del: set<RouteKey>, add: set<RouteKey>, key: RouteKey, nics: Nics)
    returns (mid: Tables, t': Tables)
    requires Mirrors(t, nics) && key in add && key !in t.record && key.nic in nics && !Clears(t, del, key.cidr, nics)
    ensures MayRemove(t, mid, del, nics) && mid.record == t.record - del
    ensures MayAdd(mid, t', add, nics) && t'.record <= mid.record + add && !Mirrors(t', nics)
  {
    var f :| f in At(t.routes, key.cidr) && !IsRouteOf(f, del, nics);
    mid := SparingRemoval(t, del, nics, f);
    NotInKernel(t, key, nics);
    t' := AnswersExists(mid, key, add, nics);
  }

  /** Where the condition fails, some pass whose removals succeed leaves record and kernel apart. */
  lemma CleanPassBreaks(t: Tables, desired: set<RouteKey>, nics: Nics) returns (t': Tables)
    requires Injective(nics) && Mirrors(t, nics) && !CleanStart(t, desired, nics)
    ensures MayPassCleanly(t, t', desired, nics) && !Mirrors(t', nics)
  {
    var del, add := t.record - desired, desired - t.record;
    var mid: Tables;
    if !NoStaleTwin(t.record - del, del, nics) {
      mid := StaleTwinBreaks(t, del, nics);
      t' := mid;
      AllMayFail(mid, add, nics);
    } else if !OneNicEach(add, nics) {
      var a, b :| a in add && b in add && a.nic in nics && b.nic in nics && a.cidr == b.cidr && a != b;
      NotInKernel(t, a, nics);
      mid := AnyCleanRemoval(t, del, nics);
      t' := SecondAnswersExists(mid, a, b, add, nics);
    } else {
      var key :| key in add && key.nic in nics && !Clears(t, del, key.cidr, nics);
      mid, t' := OccupiedBreaks(t, del, add, key, nics);
    }
    assert MayPass(t, t', desired, nics);
  }
}
