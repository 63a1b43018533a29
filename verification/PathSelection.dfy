/**
 Which of a peer's connected paths carries the direct traffic: lowest measured
 RTT, with a debounce that lets only a clear win displace the incumbent.
 */
module PathSelection {
  import opened Wrappers
  import opened Cidrs
  import opened HostInfos

  const RTT_SWITCH_IMPROVEMENT_PERCENT := 20

  /** A connected path and its latest RTT in milliseconds, if measured. */
  datatype Path = Path(addr: SocketAddr, rtt: Option<nat>)

  /** Unmeasured paths rank last. */
  predicate Faster(a: Path, b: Path) {
    a.rtt.Some? && (b.rtt.None? || a.rtt.value < b.rtt.value)
  }

  /** The first path of minimal RTT. */
  function Best(paths: seq<Path>): (r: Option<Path>)
    ensures r.None? <==> paths == []
    ensures r.Some? ==> r.value in paths && forall p | p in paths :: !Faster(p, r.value)
  {
    if paths == [] then None
    else
      var rest := Best(paths[1..]);
      assert forall p | p in paths :: p == paths[0] || p in paths[1..];
      if rest.Some? && Faster(rest.value, paths[0]) then rest else Some(paths[0])
  }

  function FindPath(paths: seq<Path>, addr: SocketAddr): (r: Option<Path>)
    ensures r.Some? ==> r.value in paths && r.value.addr == addr
    ensures r.None? ==> forall p | p in paths :: p.addr != addr
  {
    if paths == [] then None
    else if paths[0].addr == addr then Some(paths[0])
    else FindPath(paths[1..], addr)
  }

  predicate ClearlyFaster(challenger: Option<nat>, incumbent: Option<nat>) {
    challenger.Some? &&
    (incumbent.Some? ==> challenger.value * 100 < incumbent.value * (100 - RTT_SWITCH_IMPROVEMENT_PERCENT))
  }

  function SelectNext(paths: seq<Path>, selected: Option<SocketAddr>): Option<SocketAddr> {
    var current := if selected.Some? then FindPath(paths, selected.value) else None;
    match (current, Best(paths))
    case (_, None) => None
    case (None, Some(best)) => Some(best.addr)
    case (Some(cur), Some(best)) =>
      if best.addr != cur.addr && ClearlyFaster(best.rtt, cur.rtt) then Some(best.addr) else Some(cur.addr)
  }

  /** While states and RTTs do not change, a second evaluation changes nothing. */
  lemma SelectIsIdempotent(paths: seq<Path>, selected: Option<SocketAddr>)
    ensures SelectNext(paths, SelectNext(paths, selected)) == SelectNext(paths, selected)
  {
  }

  predicate DistinctAddrs(paths: seq<Path>) {
    forall i, j | 0 <= i < j < |paths| :: paths[i].addr != paths[j].addr
  }

  /** No path is faster, and every path listed before is slower. */
  ghost predicate IsFirstFastest(paths: seq<Path>, i: int) {
    && 0 <= i < |paths|
    && (forall j | 0 <= j < |paths| :: !Faster(paths[j], paths[i]))
    && (forall j | 0 <= j < i :: Faster(paths[i], paths[j]))
  }

  lemma {:induction false} BestIsFirstFastest(paths: seq<Path>) returns (i: nat)
    requires paths != []
    ensures IsFirstFastest(paths, i) && Best(paths) == Some(paths[i])
  {
    i := 0;
    if Best(paths[1..]).Some? {
      var k := BestIsFirstFastest(paths[1..]);
      assert forall j | 0 < j < |paths| :: paths[j] == paths[1..][j - 1];
      if Faster(paths[k + 1], paths[0]) {
        i := k + 1;
      }
    }
  }

  /** A measured path displaces an unmeasured incumbent, and a measured one if it is more than 20% faster. */
  ghost predicate IsDisplaced(paths: seq<Path>, cur: Path) {
    exists p | p in paths :: p.rtt.Some? && (cur.rtt.Some? ==> 5 * p.rtt.value < 4 * cur.rtt.value)
      && (cur.rtt.None? ==> p.addr != cur.addr)
  }

  /**
   Without any path nothing is selected; an incumbent that is among them stays
   unless it is displaced; and otherwise the first fastest path is taken.
   */
  lemma SelectMeaning(paths: seq<Path>, selected: Option<SocketAddr>)
    requires DistinctAddrs(paths)
    ensures var next := SelectNext(paths, selected);
            && (next.None? <==> paths == [])
            && (forall cur | cur in paths && selected == Some(cur.addr) :: next != selected <==> IsDisplaced(paths, cur))
            && (next.Some? && (next != selected || forall p | p in paths :: selected != Some(p.addr)) ==>
                  exists i: nat :: IsFirstFastest(paths, i) && next == Some(paths[i].addr))
  {
    forall cur | cur in paths && selected == Some(cur.addr)
      ensures FindPath(paths, cur.addr) == Some(cur)
    {
      var found := FindPath(paths, cur.addr).value;
      var i :| 0 <= i < |paths| && paths[i] == cur;
      var j :| 0 <= j < |paths| && paths[j] == found;
    }
    if paths != [] {
      var i := BestIsFirstFastest(paths);
      forall cur | cur in paths && selected == Some(cur.addr)
        ensures SelectNext(paths, selected) != selected <==> IsDisplaced(paths, cur)
      {
        DisplacedByBest(paths, cur, paths[i]);
      }
    }
  }

  lemma DisplacedByBest(paths: seq<Path>, cur: Path, best: Path)
    requires DistinctAddrs(paths) && cur in paths && best in paths && forall p | p in paths :: !Faster(p, best)
    ensures best.addr != cur.addr && ClearlyFaster(best.rtt, cur.rtt) <==> IsDisplaced(paths, cur)
  {
    if IsDisplaced(paths, cur) {
      var p :| p in paths && p.rtt.Some? && (cur.rtt.Some? ==> 5 * p.rtt.value < 4 * cur.rtt.value)
               && (cur.rtt.None? ==> p.addr != cur.addr);
      assert !Faster(p, best);
      assert best != cur;
      var i, j :| 0 <= i < |paths| && 0 <= j < |paths| && paths[i] == best && paths[j] == cur;
    }
  }

  // ---- whole runs of the selector -----------------------------------------------------------

  /**
   A run of the selector in which every path stays connected and measured:
   `rtts[t][i]` is the RTT path `i` shows at evaluation `t`, and `picks[t]` the
   selection before it.
   */
  datatype Run = Run(addrs: seq<SocketAddr>, rtts: seq<seq<nat>>, picks: seq<Option<SocketAddr>>) {

    ghost predicate Valid() {
      && addrs != [] && rtts != []
      && |picks| == |rtts| + 1
      && (forall t | 0 <= t < |rtts| :: |rtts[t]| == |addrs|)
      && (forall i, j | 0 <= i < j < |addrs| :: addrs[i] != addrs[j])
      && (forall t: nat | t < |rtts| :: Evaluates(t))
    }

    ghost predicate Evaluates(t: nat)
      requires t < |rtts| && |rtts[t]| == |addrs| && |picks| == |rtts| + 1
    {
      picks[t + 1] == SelectNext(PathsAt(t), picks[t])
    }

    function PathsAt(t: nat): seq<Path>
      requires t < |rtts| && |rtts[t]| == |addrs|
    {
      seq(|addrs|, i requires 0 <= i < |addrs| => Path(addrs[i], Some(rtts[t][i])))
    }

    /** The least RTT path `i` shows in the first `t` evaluations. */
    function Min(i: nat, t: nat): nat
      requires Valid() && i < |addrs| && 1 <= t <= |rtts|
    {
      if t == 1 || rtts[t - 1][i] < Min(i, t - 1) then rtts[t - 1][i] else Min(i, t - 1)
    }

    function Max(i: nat, t: nat): nat
      requires Valid() && i < |addrs| && 1 <= t <= |rtts|
    {
      if t == 1 || rtts[t - 1][i] > Max(i, t - 1) then rtts[t - 1][i] else Max(i, t - 1)
    }

    function Minima(): (r: seq<nat>)
      requires Valid()
    {
      seq(|addrs|, i requires 0 <= i < |addrs| => Min(i, |rtts|))
    }

    /** Each path's own jitter stays within a factor of 5/4. */
    ghost predicate Steady()
      requires Valid()
    {
      forall i: nat | i < |addrs| :: 4 * Max(i, |rtts|) <= 5 * Min(i, |rtts|)
    }

    /** How often the selection changed between the first pick and evaluation `t`. */
    function Switches(t: nat): nat
      requires Valid() && 1 <= t <= |rtts|
    {
      if t == 1 then 0
      else Switches(t - 1) + if picks[t] != picks[t - 1] then 1 else 0
    }
  }

  /** The selection does move in such a run: exactly when some path shows less than 80% of the selected one's RTT, and then to a fastest. */
  lemma MovesIff(run: Run, t: nat, i: nat)
    requires run.Valid() && t < |run.rtts| && i < |run.addrs| && run.picks[t] == Some(run.addrs[i])
    ensures run.picks[t + 1] != run.picks[t] <==> exists j: nat | j < |run.addrs| :: 5 * run.rtts[t][j] < 4 * run.rtts[t][i]
    ensures run.picks[t + 1] != run.picks[t] ==>
              exists k: nat | k < |run.addrs| :: run.picks[t + 1] == Some(run.addrs[k])
                && forall j | 0 <= j < |run.addrs| :: run.rtts[t][k] <= run.rtts[t][j]
  {
    var paths := run.PathsAt(t);
    assert run.Evaluates(t);
    SelectMeaning(paths, run.picks[t]);
    assert paths[i] in paths;
    if j: nat :| j < |run.addrs| && 5 * run.rtts[t][j] < 4 * run.rtts[t][i] {
      assert paths[j] in paths;
    }
    if run.picks[t + 1] != run.picks[t] {
      var k: nat :| IsFirstFastest(paths, k) && run.picks[t + 1] == Some(paths[k].addr);
      forall j | 0 <= j < |run.addrs|
        ensures run.rtts[t][k] <= run.rtts[t][j]
      {
        assert !Faster(paths[j], paths[k]);
      }
    }
  }

  lemma {:induction false} WithinMinMax(run: Run, i: nat, t: nat, u: nat)
    requires run.Valid() && i < |run.addrs| && t < u <= |run.rtts|
    ensures run.Min(i, u) <= run.rtts[t][i] <= run.Max(i, u)
    decreases u
  {
    if t < u - 1 {
      WithinMinMax(run, i, t, u - 1);
    }
  }

  /** After the first evaluation the selection is one of the paths. */
  lemma SelectionIsAPath(run: Run, t: nat) returns (i: nat)
    requires run.Valid() && 1 <= t <= |run.rtts|
    ensures i < |run.addrs| && run.picks[t] == Some(run.addrs[i])
  {
    var paths, picked := run.PathsAt(t - 1), run.picks[t];
    assert run.Evaluates(t - 1);
    var p :| p in paths && picked == Some(p.addr);
    i :| 0 <= i < |run.addrs| && paths[i] == p;
  }

  /** A switch strictly lowers the least RTT of the selected path. */
  lemma SwitchLowersMin(run: Run, t: nat, i: nat, j: nat)
    requires run.Valid() && run.Steady() && 1 <= t < |run.rtts|
    requires i < |run.addrs| && j < |run.addrs| && i != j
    requires run.picks[t] == Some(run.addrs[i]) && run.picks[t + 1] == Some(run.addrs[j])
    ensures run.Min(j, |run.rtts|) < run.Min(i, |run.rtts|)
  {
    var paths := run.PathsAt(t);
    assert run.Evaluates(t);
    assert paths[i].addr == run.addrs[i];
    var cur, best := FindPath(paths, run.addrs[i]).value, Best(paths).value;
    var k :| 0 <= k < |run.addrs| && paths[k] == cur;
    var l :| 0 <= l < |run.addrs| && paths[l] == best;
    assert k == i && l == j;
    WithinMinMax(run, i, t, |run.rtts|);
    WithinMinMax(run, j, t, |run.rtts|);
  }

  // ---- a walk that only descends ---------------------------------------------------------------

  /** A walk over nodes in which every move goes to a node of strictly lower weight. */
  ghost predicate Descends(walk: seq<nat>, weight: seq<nat>) {
    && (forall t | 0 <= t < |walk| :: walk[t] < |weight|)
    && forall t: nat | 0 < t < |walk| :: StaysOrDescends(walk, weight, t)
  }

  predicate StaysOrDescends(walk: seq<nat>, weight: seq<nat>, t: nat)
    requires 0 < t < |walk| && walk[t - 1] < |weight| && walk[t] < |weight|
  {
    walk[t] == walk[t - 1] || weight[walk[t]] < weight[walk[t - 1]]
  }

  function Moves(walk: seq<nat>): nat {
    if |walk| <= 1 then 0
    else Moves(walk[..|walk| - 1]) + if walk[|walk| - 1] != walk[|walk| - 2] then 1 else 0
  }

  lemma {:induction false} DescendsFar(walk: seq<nat>, weight: seq<nat>, t: nat, u: nat)
    requires Descends(walk, weight) && t <= u < |walk|
    ensures walk[t] == walk[u] || weight[walk[u]] < weight[walk[t]]
    decreases u
  {
    if t < u {
      DescendsFar(walk, weight, t, u - 1);
      assert StaysOrDescends(walk, weight, u);
    }
  }

  lemma DescendsExtend(walk: seq<nat>, weight: seq<nat>, next: nat)
    requires Descends(walk, weight) && next < |weight|
    requires walk != [] ==> next == walk[|walk| - 1] || weight[next] < weight[walk[|walk| - 1]]
    ensures Descends(walk + [next], weight)
  {
    forall t: nat | 0 < t <= |walk|
      ensures StaysOrDescends(walk + [next], weight, t)
    {
      assert t < |walk| ==> StaysOrDescends(walk, weight, t);
    }
  }

  function Nodes(walk: seq<nat>): set<nat> {
    set n | n in walk
  }

  lemma DescendsPrefix(walk: seq<nat>, weight: seq<nat>, n: nat)
    requires Descends(walk, weight) && n <= |walk|
    ensures Descends(walk[..n], weight)
  {
    forall t: nat | 0 < t < n
      ensures StaysOrDescends(walk[..n], weight, t)
    {
      assert StaysOrDescends(walk, weight, t);
    }
  }

  /** The last node of a walk is new if it was just moved to, and not otherwise. */
  lemma LastNodeIsNewIfMoved(walk: seq<nat>, weight: seq<nat>)
    requires Descends(walk, weight) && |walk| > 1
    ensures walk[|walk| - 1] in Nodes(walk[..|walk| - 1]) <==> walk[|walk| - 1] == walk[|walk| - 2]
  {
    var n := |walk| - 1;
    assert walk[n - 1] == walk[..n][n - 1];
    if walk[n] in Nodes(walk[..n]) {
      var t :| 0 <= t < n && walk[..n][t] == walk[n];
      DescendsFar(walk, weight, t, n - 1);
      assert StaysOrDescends(walk, weight, n);
    }
  }

  lemma {:induction false} EachMoveFindsANewNode(walk: seq<nat>, weight: seq<nat>)
    requires Descends(walk, weight) && walk != []
    ensures |Nodes(walk)| == 1 + Moves(walk)
    decreases |walk|
  {
    var n := |walk| - 1;
    if n == 0 {
      assert Nodes(walk) == {walk[0]};
    } else {
      DescendsPrefix(walk, weight, n);
      EachMoveFindsANewNode(walk[..n], weight);
      LastNodeIsNewIfMoved(walk, weight);
      NodesExtend(walk[..n], walk[n]);
      assert walk == walk[..n] + [walk[n]];
    }
  }

  lemma NodesExtend(walk: seq<nat>, next: nat)
    ensures Nodes(walk + [next]) == Nodes(walk) + {next}
  {
  }

  lemma {:induction false} BoundedSetCount(nodes: set<nat>, bound: nat)
    requires forall n | n in nodes :: n < bound
    ensures |nodes| <= bound
    decreases bound
  {
    if bound == 0 {
      assert nodes == {};
    } else {
      BoundedSetCount(nodes - {bound - 1}, bound - 1);
    }
  }

  // ---- the results -----------------------------------------------------------------------------

  /** The selections of a run, as a walk over path indices. */
  ghost predicate IsWalkOf(run: Run, walk: seq<nat>)
    requires run.Valid()
  {
    && |walk| <= |run.rtts|
    && forall t: nat | t < |walk| :: walk[t] < |run.addrs| && run.picks[t + 1] == Some(run.addrs[walk[t]])
  }

  lemma {:induction false} WalkExists(run: Run, t: nat) returns (walk: seq<nat>)
    requires run.Valid() && run.Steady() && t <= |run.rtts|
    ensures |walk| == t && IsWalkOf(run, walk)
    ensures Descends(walk, run.Minima())
    decreases t
  {
    if t == 0 {
      walk := [];
    } else {
      var before := WalkExists(run, t - 1);
      var i := SelectionIsAPath(run, t);
      if t > 1 && i != before[t - 2] {
        assert run.picks[t - 1] == Some(run.addrs[before[t - 2]]);
        SwitchLowersMin(run, t - 1, before[t - 2], i);
      }
      walk := ExtendWalk(run, before, i);
    }
  }

  lemma ExtendWalk(run: Run, before: seq<nat>, i: nat) returns (walk: seq<nat>)
    requires run.Valid() && |before| < |run.rtts| && i < |run.addrs|
    requires IsWalkOf(run, before) && run.picks[|before| + 1] == Some(run.addrs[i])
    requires Descends(before, run.Minima())
    requires before != [] ==> i == before[|before| - 1] || run.Minima()[i] < run.Minima()[before[|before| - 1]]
    ensures |walk| == |before| + 1 && IsWalkOf(run, walk) && Descends(walk, run.Minima())
  {
    walk := before + [i];
    DescendsExtend(before, run.Minima(), i);
  }

  lemma WalkLeavesForGood(walk: seq<nat>, weight: seq<nat>, t: nat, u: nat, v: nat)
    requires Descends(walk, weight) && t < u < v < |walk| && walk[t] != walk[u]
    ensures walk[v] != walk[t]
  {
    DescendsFar(walk, weight, t, u);
    DescendsFar(walk, weight, u, v);
  }

  lemma PicksAgree(run: Run, walk: seq<nat>, t: nat, u: nat)
    requires run.Valid() && IsWalkOf(run, walk) && t < |walk| && u < |walk|
    ensures run.picks[t + 1] == run.picks[u + 1] <==> walk[t] == walk[u]
  {
  }

  /** An address once left is never selected again. */
  lemma NeverReturns(run: Run, t: nat, u: nat, v: nat)
    requires run.Valid() && run.Steady() && 1 <= t < u < v <= |run.rtts|
    requires run.picks[t] != run.picks[u]
    ensures run.picks[v] != run.picks[t]
  {
    var walk := WalkExists(run, v);
    PicksAgree(run, walk, t - 1, u - 1);
    WalkLeavesForGood(walk, run.Minima(), t - 1, u - 1, v - 1);
    PicksAgree(run, walk, t - 1, v - 1);
  }

  lemma {:induction false} SwitchesAreMoves(run: Run, walk: seq<nat>)
    requires run.Valid() && walk != [] && IsWalkOf(run, walk)
    ensures run.Switches(|walk|) == Moves(walk)
    decreases |walk|
  {
    var n := |walk| - 1;
    if n > 0 {
      SwitchesAreMoves(run, walk[..n]);
      assert run.picks[n] == Some(run.addrs[walk[n - 1]]) && run.picks[n + 1] == Some(run.addrs[walk[n]]);
    }
  }

  /** After the first pick a steady run switches fewer times than there are sessions. */
  lemma SwitchesAreBounded(run: Run, t: nat)
    requires run.Valid() && run.Steady() && 1 <= t <= |run.rtts|
    ensures run.Switches(t) < |run.addrs|
  {
    var walk := WalkExists(run, t);
    SwitchesAreMoves(run, walk);
    EachMoveFindsANewNode(walk, run.Minima());
    BoundedSetCount(Nodes(walk), |run.addrs|);
  }
}
