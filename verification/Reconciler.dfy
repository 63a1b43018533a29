/** The reconciler: a record of installed routes, compared with the wanted ones and driven toward them through a kernel whose calls may fail. */
module Reconcilers {
  import opened Wrappers
  import opened Cidrs
  import opened HostInfos
  import opened StateFile
  import opened KernelMirror
  import opened CleanPasses
  import Text

  // ---- what should exist ------------------------------------------------------------------------

  /** One peer as the planner sees it: our nic in its network, its address, and the subnets it is the exit for. */
  datatype PeerRoutes = PeerRoutes(nic: PeerId, peerId: PeerId, ip: IpAddr, subnets: seq<Cidr>)

  function Keys(p: PeerRoutes): set<RouteKey> {
    (if p.ip.V4? then {RouteKey(p.nic, Cidr(p.ip.v4, 32))} else {})
    + set c | c in p.subnets :: RouteKey(p.nic, Network(c))
  }

  function DesiredRoutes(nics: set<PeerId>, peers: seq<PeerRoutes>): set<RouteKey> {
    set p, k | p in peers && p.nic in nics && k in Keys(p) :: k
  }

  method Desired(nics: set<PeerId>, peers: seq<PeerRoutes>) returns (keys: set<RouteKey>)
    ensures keys == DesiredRoutes(nics, peers)
  {
    keys := {};
    for i := 0 to |peers|
      invariant keys == DesiredRoutes(nics, peers[..i])
    {
      var peer := peers[i];
      ghost var before := keys;
      if peer.nic in nics {
        if peer.ip.V4? {
          keys := keys + {RouteKey(peer.nic, Cidr(peer.ip.v4, 32))};
        }
        ghost var withHost := keys;
        for j := 0 to |peer.subnets|
          invariant keys == withHost + set c | c in peer.subnets[..j] :: RouteKey(peer.nic, Network(c))
        {
          assert peer.subnets[..j + 1] == peer.subnets[..j] + [peer.subnets[j]];
          keys := keys + {RouteKey(peer.nic, Network(peer.subnets[j]))};
        }
        assert peer.subnets[..|peer.subnets|] == peer.subnets;
        assert keys == before + Keys(peer);
      }
      DesiredExtend(nics, peers, i);
    }
    assert peers[..|peers|] == peers;
  }

  lemma DesiredExtend(nics: set<PeerId>, peers: seq<PeerRoutes>, i: nat)
    requires i < |peers|
    ensures DesiredRoutes(nics, peers[..i + 1]) ==
            DesiredRoutes(nics, peers[..i]) + if peers[i].nic in nics then Keys(peers[i]) else {}
  {
  }

  /** What is missing, and what is there in excess. */
  function Diff(desired: set<RouteKey>, installed: set<RouteKey>): (set<RouteKey>, set<RouteKey>) {
    (desired - installed, installed - desired)
  }

  function SymmetricDifference(a: set<RouteKey>, b: set<RouteKey>): set<RouteKey> {
    (a - b) + (b - a)
  }

  // ---- the kernel ----------------------------------------------------------------------------------

  datatype Outcome = Done | Exists | Missing | Failed

  /** The routing table behind calls that may fail; `failures` counts those that did. */
  class Kernel {
    var routes: set<KernelRoute>
    var failures: nat

    /** Any route to the same prefix can make the kernel answer "already exists", whatever interface it leaves through. */
    method AddRoute(route: KernelRoute) returns (outcome: Outcome)
      modifies this
      ensures outcome in {Done, Exists, Failed}
      ensures failures == old(failures) + if outcome == Failed then 1 else 0
      ensures outcome == Done ==> route !in old(routes) && routes == old(routes) + {route}
      ensures outcome == Exists ==> routes == old(routes) && exists o | o in routes :: o.cidr == route.cidr
      ensures outcome == Failed ==> routes == old(routes)
    {
      if * {
        failures := failures + 1;
        return Failed;
      }
      if route in routes {
        return Exists;
      }
      if o :| o in routes && o.cidr == route.cidr {
        if * {
          return Exists;
        }
      }
      routes := routes + {route};
      return Done;
    }

    /** Removes some route to the prefix, through the interface if one is given. */
    method DeleteRoute(cidr: Cidr, ifindex: Option<nat>) returns (outcome: Outcome)
      modifies this
      ensures outcome in {Done, Missing, Failed}
      ensures failures == old(failures) + if outcome == Failed then 1 else 0
      ensures outcome == Done ==> exists r | r in old(routes) && Matches(r, cidr, ifindex) :: routes == old(routes) - {r}
      ensures outcome == Missing ==> routes == old(routes) && forall r | r in routes :: !Matches(r, cidr, ifindex)
      ensures outcome == Failed ==> routes == old(routes)
    {
      if * {
        failures := failures + 1;
        return Failed;
      }
      if r :| r in routes && Matches(r, cidr, ifindex) {
        routes := routes - {r};
        return Done;
      }
      return Missing;
    }
  }

  /** What a pass has changed in going from `before` to `now`. */
  ghost predicate Progress(before: set<RouteKey>, now: set<RouteKey>, desired: set<RouteKey>, changed: int) {
    && changed == |SymmetricDifference(before, desired)| - |SymmetricDifference(now, desired)|
    && before * desired <= now <= before + desired
  }

  /** Every unwanted route that goes and every wanted one that comes is one change; if all do, the goal is reached. */
  lemma PassProgress(before: set<RouteKey>, mid: set<RouteKey>, now: set<RouteKey>, desired: set<RouteKey>)
    requires before * desired <= mid <= before && mid <= now <= mid + desired
    ensures Progress(before, now, desired, |before| - |mid| + |now| - |mid|)
    ensures mid !! before - desired && desired - before <= now ==> now == desired
  {
    RemovalsCount(before, mid, desired);
    AdditionsCount(mid, now, desired);
  }

  lemma RemovalsCount(before: set<RouteKey>, mid: set<RouteKey>, desired: set<RouteKey>)
    requires before * desired <= mid <= before
    ensures |SymmetricDifference(before, desired)| - |SymmetricDifference(mid, desired)| == |before| - |mid|
  {
    var gone := before - mid;
    DisjointCount(gone, mid);
    DisjointCount(gone, SymmetricDifference(mid, desired));
    assert gone + mid == before;
    assert gone + SymmetricDifference(mid, desired) == SymmetricDifference(before, desired);
  }

  lemma AdditionsCount(mid: set<RouteKey>, now: set<RouteKey>, desired: set<RouteKey>)
    requires mid <= now <= mid + desired
    ensures |SymmetricDifference(mid, desired)| - |SymmetricDifference(now, desired)| == |now| - |mid|
  {
    var came := now - mid;
    DisjointCount(came, mid);
    DisjointCount(came, SymmetricDifference(now, desired));
    assert came + mid == now;
    assert came + SymmetricDifference(now, desired) == SymmetricDifference(mid, desired);
  }

  lemma DisjointCount<T>(a: set<T>, b: set<T>)
    requires a !! b
    ensures |a + b| == |a| + |b|
  {
  }

  class Reconciler {
    /** The record: routes installed by this run, or left by the last one. */
    var installed: set<RouteKey>
    /** Whether it is to be kept outside the process. */
    const persists: bool
    /** Its copy there, if there is one. */
    var file: Option<string>
    /** How often that copy could not be written. */
    var failedWrites: nat

    constructor (persists: bool, file: Option<string>)
      ensures installed == {} && this.persists == persists && this.file == file && failedWrites == 0
    {
      installed, this.persists, this.file, failedWrites := {}, persists, file, 0;
    }

    /** The kernel's routes beside the record. */
    ghost function Now(kernel: Kernel): Tables
      reads this, kernel
    {
      Tables(kernel.routes, installed)
    }

    /** Success, a route that was missing included, leaves what a removal through the nic's interface, or through any, may leave. */
    method Uninstall(key: RouteKey, nics: Nics, kernel: Kernel) returns (ok: bool)
      modifies kernel
      ensures kernel.failures == old(kernel.failures) + if ok then 0 else 1
      ensures ok ==> MayUninstall(old(kernel.routes), kernel.routes, key.cidr, InterfaceOf(nics, key.nic))
      ensures !ok ==> kernel.routes == old(kernel.routes)
    {
      var outcome := kernel.DeleteRoute(key.cidr, InterfaceOf(nics, key.nic));
      ok := outcome != Failed;
    }

    /** Success, a route that was there included, leaves what an installation may leave. */
    method Install(key: RouteKey, ifindex: nat, kernel: Kernel) returns (ok: bool)
      modifies kernel
      ensures kernel.failures == old(kernel.failures) + if ok then 0 else 1
      ensures ok ==> MayInstall(old(kernel.routes), kernel.routes, KernelRoute(ifindex, key.cidr))
      ensures !ok ==> kernel.routes == old(kernel.routes)
    {
      var outcome := kernel.AddRoute(KernelRoute(ifindex, key.cidr));
      ok := outcome != Failed;
    }

    /** One pass: remove what is not wanted, add what is missing, and write the record down if it changed. */
    method Reconcile(desired: set<RouteKey>, nics: Nics, kernel: Kernel) returns (changed: nat)
      modifies this, kernel
      ensures PassOutcome(old(Now(kernel)), Now(kernel), desired, nics, changed, kernel.failures == old(kernel.failures))
      ensures kernel.failures >= old(kernel.failures)
      ensures old(installed) == desired ==> kernel.failures == old(kernel.failures)
      ensures changed == 0 || !persists ==> file == old(file) && failedWrites == old(failedWrites)
      ensures changed > 0 && persists && failedWrites == old(failedWrites) ==> PersistedAs(file, installed)
      ensures file == old(file) || PersistedAs(file, installed) || TornFrom(file, installed)
    {
      var (add, del) := Diff(desired, installed);
      ghost var before := Now(kernel);
      var removed := RemoveExtra(del, nics, kernel);
      ghost var middle := Now(kernel);
      RemovalsOnlyRemove(before, middle, del, nics);
      var added := AddMissing(add, nics, kernel);
      changed := removed + added;
      PassEffect(before, middle, Now(kernel), desired, nics, kernel.failures == old(kernel.failures));
      if changed > 0 {
        Persist();
      }
    }

    /** Remove one route and, if that worked, forget it. */
    method RemoveOne(key: RouteKey, nics: Nics, kernel: Kernel, ghost phase: Phase) returns (ok: bool)
      requires Removing(phase, Now(kernel), nics) && key in phase.rest
      modifies this`installed, kernel
      ensures Removing(phase.(rest := phase.rest - {key}, clean := phase.clean && ok), Now(kernel), nics)
      ensures kernel.failures == old(kernel.failures) + if ok then 0 else 1
      ensures |installed| == |old(installed)| - if ok then 1 else 0
    {
      ghost var before := Now(kernel);
      ok := Uninstall(key, nics, kernel);
      if ok {
        installed := installed - {key};
      }
      RemovingStep(phase, before, Now(kernel), key, nics, ok);
    }

    /** Add one route and, if that worked, record it; without a registered nic there is nothing to try. */
    method AddOne(key: RouteKey, nics: Nics, kernel: Kernel, ghost phase: Phase) returns (ok: bool)
      requires Adding(phase, Now(kernel), nics) && key in phase.rest
      modifies this`installed, kernel
      ensures Adding(phase.(rest := phase.rest - {key}, clean := phase.clean && kernel.failures == old(kernel.failures)),
                     Now(kernel), nics)
      ensures kernel.failures >= old(kernel.failures)
      ensures |installed| == |old(installed)| + if ok then 1 else 0
    {
      ghost var before := Now(kernel);
      ok := false;
      if key.nic in nics {
        ok := Install(key, nics[key.nic], kernel);
        if ok {
          installed := installed + {key};
        }
      }
      AddingStep(phase, before, Now(kernel), key, nics, kernel.failures == old(kernel.failures));
    }

    /** Try to remove every route of `del`; the count is of those that went. */
    method RemoveExtra(del: set<RouteKey>, nics: Nics, kernel: Kernel) returns (changed: nat)
      requires del <= installed
      modifies this`installed, kernel
      ensures MayRemove(old(Now(kernel)), Now(kernel), del, nics)
      ensures changed == |old(installed)| - |installed|
      ensures kernel.failures >= old(kernel.failures)
      ensures kernel.failures == old(kernel.failures) ==> installed !! del
      ensures del == {} ==> kernel.failures == old(kernel.failures)
    {
      ghost var start := Now(kernel);
      changed := 0;
      var rest := del;
      while rest != {}
        invariant rest <= del
        invariant Removing(Phase(start, del, rest, kernel.failures == old(kernel.failures)), Now(kernel), nics)
        invariant changed == |old(installed)| - |installed|
        invariant kernel.failures >= old(kernel.failures) && (rest == del ==> kernel.failures == old(kernel.failures))
        decreases rest
      {
        var key :| key in rest;
        var ok := RemoveOne(key, nics, kernel, Phase(start, del, rest, kernel.failures == old(kernel.failures)));
        if ok {
          changed := changed + 1;
        }
        rest := rest - {key};
      }
      RemovingEnd(start, del, Now(kernel), nics, kernel.failures == old(kernel.failures));
    }

    /** Try to add every route of `add` whose nic is known; the count is of those that came. */
    method AddMissing(add: set<RouteKey>, nics: Nics, kernel: Kernel) returns (changed: nat)
      requires add !! installed
      modifies this`installed, kernel
      ensures MayAdd(old(Now(kernel)), Now(kernel), add, nics)
      ensures changed == |installed| - |old(installed)|
      ensures kernel.failures >= old(kernel.failures)
      ensures kernel.failures == old(kernel.failures) ==> forall k | k in add && k.nic in nics :: k in installed
      ensures add == {} ==> kernel.failures == old(kernel.failures)
    {
      ghost var start := Now(kernel);
      changed := 0;
      var rest := add;
      while rest != {}
        invariant rest <= add
        invariant Adding(Phase(start, add, rest, kernel.failures == old(kernel.failures)), Now(kernel), nics)
        invariant changed == |installed| - |old(installed)|
        invariant kernel.failures >= old(kernel.failures) && (rest == add ==> kernel.failures == old(kernel.failures))
        decreases rest
      {
        var key :| key in rest;
        var ok := AddOne(key, nics, kernel, Phase(start, add, rest, kernel.failures == old(kernel.failures)));
        if ok {
          changed := changed + 1;
        }
        rest := rest - {key};
      }
      AddingEnd(start, add, Now(kernel), nics, kernel.failures == old(kernel.failures));
    }

    /** Write the record's lines, in some listing order; a failure leaves the old file or a part of the new text. */
    method Persist()
      modifies this`file, this`failedWrites
      ensures !persists ==> file == old(file) && failedWrites == old(failedWrites)
      ensures persists && failedWrites == old(failedWrites) ==> PersistedAs(file, installed)
      ensures failedWrites != old(failedWrites) ==>
                failedWrites == old(failedWrites) + 1 && (file == old(file) || TornFrom(file, installed))
    {
      if !persists {
        return;
      }
      var keys: seq<RouteKey> := [];
      var rest := installed;
      while rest != {}
        invariant rest <= installed && installed == rest + set k | k in keys
        decreases |rest|
      {
        var key :| key in rest;
        keys := keys + [key];
        rest := rest - {key};
      }
      var body := Render(keys);
      if * {
        file := Some(body);
        return;
      }
      failedWrites := failedWrites + 1;
      if * {
        var written: nat :| written <= |body|;
        file := Some(body[..written]);
      }
    }

    /** Adds to the record whatever the file's lines parse to: what was persisted, if it was persisted in full. */
    method Restore()
      modifies this`installed
      ensures installed == old(installed) + if persists && file.Some? then ParseState(file.value) else {}
      ensures persists ==> forall before: set<RouteKey> | PersistedAs(file, before) :: installed == old(installed) + before
    {
      if persists && file.Some? {
        var lines := Text.Split(file.value, '\n');
        ghost var before := installed;
        for i := 0 to |lines|
          invariant installed + LinesKeys(lines[i..]) == before + LinesKeys(lines)
        {
          var line := Text.Trim(lines[i]);
          match ParseLine(line) {
            case Some(key) => installed := installed + {key};
            case None =>
          }
        }
        forall keys: seq<RouteKey> | file.value == Render(keys)
          ensures ParseState(file.value) == set k | k in keys
        {
          StateRoundTrip(keys);
        }
      }
    }
  }

  /** The file holds the lines of `installed`, each route listed at least once. */
  ghost predicate PersistedAs(file: Option<string>, installed: set<RouteKey>) {
    exists keys: seq<RouteKey> :: file == Some(Render(keys)) && installed == set k | k in keys
  }

  /** The file holds a first part of such lines, perhaps with the last one cut short. */
  ghost predicate TornFrom(file: Option<string>, installed: set<RouteKey>) {
    exists keys: seq<RouteKey>, n: nat | n <= |Render(keys)| ::
      file == Some(Render(keys)[..n]) && installed == set k | k in keys
  }

  ghost predicate StartSuffices(t: Tables, desired: set<RouteKey>, nics: Nics, clean: bool) {
    SafeStart(t, desired, nics) || (clean && CleanStart(t, desired, nics))
  }

  /**
   What a pass achieves; `clean` says that no call failed. The count is the
   shrinkage of the symmetric difference, and the record stays between the
   intersection and the union. If nothing fails and every wanted nic is known,
   the record is what was wanted; if it was that before, the pass does nothing.
   Record and kernel stay in step from a safe start, or from a clean start if
   nothing fails.
   */
  ghost predicate PassOutcome(t: Tables, t': Tables, desired: set<RouteKey>, nics: Nics, changed: int, clean: bool) {
    && MayPass(t, t', desired, nics)
    && Progress(t.record, t'.record, desired, changed)
    && (clean && (forall k | k in desired :: k.nic in nics) ==> t'.record == desired)
    && (t.record == desired ==> changed == 0 && t' == t)
    && (Injective(nics) && Mirrors(t, nics) && StartSuffices(t, desired, nics, clean) ==> Mirrors(t', nics))
  }

  /** How far a phase is: what it started from, what it is to try and has yet to, and whether nothing failed so far. */
  datatype Phase = Phase(start: Tables, all: set<RouteKey>, rest: set<RouteKey>, clean: bool)

  /** Whatever trying the rest may lead to from `now`, trying all may have led to from the start. */
  ghost predicate Removing(p: Phase, now: Tables, nics: Nics) {
    && (forall t' | MayRemove(now, t', p.rest, nics) :: MayRemove(p.start, t', p.all, nics))
    && p.rest <= p.all && p.rest <= now.record
    && (p.clean ==> now.record !! p.all - p.rest)
  }

  ghost predicate Adding(p: Phase, now: Tables, nics: Nics) {
    && (forall t' | MayAdd(now, t', p.rest, nics) :: MayAdd(p.start, t', p.all, nics))
    && p.rest <= p.all && p.rest !! now.record
    && (p.clean ==> forall k | k in p.all - p.rest && k.nic in nics :: k in now.record)
  }

  lemma RemovingStep(p: Phase, t: Tables, t': Tables, key: RouteKey, nics: Nics, ok: bool)
    requires Removing(p, t, nics) && key in p.rest
    requires if ok then Removes(t, t', key, nics) else t' == t
    ensures Removing(p.(rest := p.rest - {key}, clean := p.clean && ok), t', nics)
  {
    forall end | MayRemove(t', end, p.rest - {key}, nics)
      ensures MayRemove(p.start, end, p.all, nics)
    {
      assert MayRemove(t, end, p.rest, nics);
    }
  }

  lemma AddingStep(p: Phase, t: Tables, t': Tables, key: RouteKey, nics: Nics, clean: bool)
    requires Adding(p, t, nics) && key in p.rest
    requires t' == t || Adds(t, t', key, nics)
    requires clean && key.nic in nics ==> key in t'.record
    ensures Adding(p.(rest := p.rest - {key}, clean := p.clean && clean), t', nics)
  {
    forall end | MayAdd(t', end, p.rest - {key}, nics)
      ensures MayAdd(p.start, end, p.all, nics)
    {
      assert MayAdd(t, end, p.rest, nics);
    }
  }

  lemma RemovingEnd(start: Tables, del: set<RouteKey>, now: Tables, nics: Nics, clean: bool)
    requires Removing(Phase(start, del, {}, clean), now, nics)
    ensures MayRemove(start, now, del, nics) && (clean ==> now.record !! del)
  {
    assert MayRemove(now, now, {}, nics);
    assert del - {} == del;
  }

  lemma AddingEnd(start: Tables, add: set<RouteKey>, now: Tables, nics: Nics, clean: bool)
    requires Adding(Phase(start, add, {}, clean), now, nics)
    ensures MayAdd(start, now, add, nics) && (clean ==> forall k | k in add && k.nic in nics :: k in now.record)
  {
    assert MayAdd(now, now, {}, nics);
  }

  lemma PassEffect(t: Tables, mid: Tables, t': Tables, desired: set<RouteKey>, nics: Nics, clean: bool)
    requires MayRemove(t, mid, t.record - desired, nics) && MayAdd(mid, t', desired - t.record, nics)
    requires clean ==> mid.record !! t.record - desired
    requires clean ==> forall k | k in desired - t.record && k.nic in nics :: k in t'.record
    ensures PassOutcome(t, t', desired, nics, |t.record| - |mid.record| + |t'.record| - |mid.record|, clean)
  {
    RecordEffect(t, mid, t', desired, nics);
    assert MayPass(t, t', desired, nics);
    if t.record == desired {
      NothingHeals(t, t', nics);
    }
    if Injective(nics) && Mirrors(t, nics) && StartSuffices(t, desired, nics, clean) {
      PassMirrors(t, t', desired, nics, clean);
    }
  }

  lemma RecordEffect(t: Tables, mid: Tables, t': Tables, desired: set<RouteKey>, nics: Nics)
    requires MayRemove(t, mid, t.record - desired, nics) && MayAdd(mid, t', desired - t.record, nics)
    ensures Progress(t.record, t'.record, desired, |t.record| - |mid.record| + |t'.record| - |mid.record|)
    ensures mid.record !! t.record - desired && desired - t.record <= t'.record ==> t'.record == desired
    ensures t'.record - mid.record <= desired
  {
    RemovalsOnlyRemove(t, mid, t.record - desired, nics);
    InstallsOnlyAdd(mid, t', desired - t.record, nics);
    PassProgress(t.record, mid.record, t'.record, desired);
  }

  lemma PassMirrors(t: Tables, t': Tables, desired: set<RouteKey>, nics: Nics, clean: bool)
    requires Injective(nics) && Mirrors(t, nics) && MayPass(t, t', desired, nics)
    requires clean ==> t'.record !! t.record - desired
    requires StartSuffices(t, desired, nics, clean)
    ensures Mirrors(t', nics)
  {
    if SafeStart(t, desired, nics) {
      PassKeepsMirrorIff(t, desired, nics);
    } else {
      CleanPassKeepsMirror(t, t', desired, nics);
    }
  }
}
