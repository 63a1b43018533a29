/**
 Two sessions punching toward each other over a network that loses, reorders
 and duplicates. A datagram may be delivered any number of times, at any time
 after it was sent, or never; the tasks of both sides interleave freely.
 */
module HolePunch {
  import opened Wrappers
  import opened UdpSession

  /** An RTT sample: the ping it answers, how many pings had been stamped when the pong matched, and when it was stored. */
  datatype Sample = Sample(ping: nat, pingsAtMatch: nat, storedAt: nat, rtt: nat)

  /** One side: its session and what has happened to it. */
  datatype Side = Side(
    session: Session,
    sent: set<Signal>,
    received: set<Signal>,
    seqsSent: nat,
    pings: seq<nat>,
    pingsAtMatch: nat,
    samples: seq<Sample>)

  datatype World = World(left: Side, right: Side)

  datatype Event =
    | HandshakeTask(timerFired: bool)
    | DispatchTask(signal: Signal)
    | StoreTask
    | MonitorTask
    | Tick(ms: nat)

  function NewSide(nonce: nat): Side {
    Side(Fresh(nonce), {}, {}, 0, [], 0, [])
  }

  /** The dispatcher handles one datagram at a time, and only datagrams the other side sent. */
  predicate Enabled(me: Side, other: Side, e: Event) {
    e.DispatchTask? ==> me.session.matched.None? && e.signal in other.sent
  }

  function Emit(me: Side, session: Session, out: Option<Signal>): Side {
    var me := me.(session := session);
    match out
    case None => me
    case Some(signal) =>
      me.(sent := me.sent + {signal}, seqsSent := me.seqsSent + if signal.kind.SeqSignal? then 1 else 0)
  }

  function Advance(me: Side, e: Event): Side {
    match e
    case HandshakeTask(timerFired) =>
      var (session, out) := Handshake(me.session, timerFired);
      var pings := if me.session.phase == Pinging(None) && timerFired then me.pings + [me.session.clock] else me.pings;
      Emit(me, session, out).(pings := pings)
    case DispatchTask(signal) =>
      var (session, out) := Dispatch(me.session, signal);
      Emit(me, session, out).(received := me.received + {signal}, pingsAtMatch := |me.pings|)
    case StoreTask =>
      var session := StoreSample(me.session);
      var samples :=
        if me.session.matched.Some? && session.rtt.Some?
        then me.samples + [Sample(me.session.matched.value, me.pingsAtMatch, session.clock, session.rtt.value)]
        else me.samples;
      me.(session := session, samples := samples)
    case MonitorTask => me.(session := Monitor(me.session))
    case Tick(ms) => me.(session := me.session.(clock := me.session.clock + ms))
  }

  ghost predicate Step(w: World, w': World) {
    || (exists e :: Enabled(w.left, w.right, e) && w' == World(Advance(w.left, e), w.right))
    || (exists e :: Enabled(w.right, w.left, e) && w' == World(w.left, Advance(w.right, e)))
  }

  ghost predicate IsRun(run: seq<World>) {
    && run != []
    && (exists a: nat, b: nat :: run[0] == World(NewSide(a), NewSide(b)))
    && forall i | 0 < i < |run| :: Step(run[i - 1], run[i])
  }

  // ---- what every step keeps --------------------------------------------------------------

  ghost predicate PhaseInv(s: Session, seqsSent: nat) {
    match s.phase
    case Sending(i) => s.state == Connecting && seqsSent == i < HANDSHAKE_MAX_ATTEMPTS
    case Waiting(i) => s.state == Connecting && seqsSent == i + 1 <= HANDSHAKE_MAX_ATTEMPTS
    case Acked => s.state == Connecting && seqsSent <= HANDSHAKE_MAX_ATTEMPTS
    case GivingUp => s.state == Connecting && seqsSent == HANDSHAKE_MAX_ATTEMPTS
    case Pinging(at) =>
      s.state != Connecting && seqsSent <= HANDSHAKE_MAX_ATTEMPTS && (at.Some? ==> at.value <= s.clock)
    case Stopped => s.state == Timeout && seqsSent == HANDSHAKE_MAX_ATTEMPTS
  }

  ghost predicate SampleInv(me: Side, s: Sample) {
    && 0 < s.pingsAtMatch <= |me.pings|
    && s.ping == me.pings[s.pingsAtMatch - 1] <= s.storedAt
    && s.rtt == s.storedAt - s.ping
    && Signal(PongSignal, Some(s.ping)) in me.received
  }

  ghost predicate TimeInv(me: Side) {
    var s := me.session;
    && s.lastRecv <= s.clock
    && (forall p | p in me.pings :: p <= s.clock)
    && s.lastPing == (if me.pings == [] then None else Some(me.pings[|me.pings| - 1]))
    && (s.silent.Some? ==> s.state == Connected && s.silent.value >= LIVENESS_TIMEOUT)
    && (s.matched.Some? ==>
          && 0 < me.pingsAtMatch <= |me.pings|
          && s.matched.value == me.pings[me.pingsAtMatch - 1]
          && Signal(PongSignal, s.matched) in me.received)
    && (forall x | x in me.samples :: SampleInv(me, x))
    && s.rtt == (if me.samples == [] then None else Some(me.samples[|me.samples| - 1].rtt))
  }

  /** Everything sent has its cause: a Seq carries the own nonce, replies echo what was received. */
  ghost predicate SentInv(me: Side) {
    && (forall n | Signal(SeqSignal, n) in me.sent :: n == Some(me.session.nonce))
    && (forall n | Signal(AckSignal, n) in me.sent :: Signal(SeqSignal, n) in me.received)
    && (forall t | Signal(PongSignal, t) in me.sent :: Signal(PingSignal, t) in me.received)
    && (me.session.ackPending || me.session.phase.Acked? || me.session.phase.Pinging?
        ==> Signal(AckSignal, Some(me.session.nonce)) in me.received)
  }

  ghost predicate SideInv(me: Side, other: Side) {
    && PhaseInv(me.session, me.seqsSent)
    && TimeInv(me)
    && SentInv(me)
    && me.received <= other.sent
  }

  lemma HandshakeKeepsPhase(me: Side, timerFired: bool)
    requires PhaseInv(me.session, me.seqsSent)
    ensures var me' := Advance(me, HandshakeTask(timerFired)); PhaseInv(me'.session, me'.seqsSent)
  {
  }

  lemma AdvanceKeepsPhase(me: Side, e: Event)
    requires PhaseInv(me.session, me.seqsSent) && (me.session.silent.Some? ==> me.session.state == Connected)
    ensures PhaseInv(Advance(me, e).session, Advance(me, e).seqsSent)
  {
    match e
    case HandshakeTask(timerFired) => HandshakeKeepsPhase(me, timerFired);
    case DispatchTask(signal) =>
    case StoreTask =>
    case MonitorTask =>
    case Tick(_) =>
  }

  /** Samples survive as long as the histories they point into only grow. */
  lemma SamplesSurvive(me: Side, me': Side)
    requires forall x | x in me.samples :: SampleInv(me, x)
    requires |me.pings| <= |me'.pings| && me'.pings[..|me.pings|] == me.pings
    requires me.received <= me'.received
    ensures forall x | x in me.samples :: SampleInv(me', x)
  {
    forall x | x in me.samples
      ensures SampleInv(me', x)
    {
      assert SampleInv(me, x);
      assert me'.pings[x.pingsAtMatch - 1] == me'.pings[..|me.pings|][x.pingsAtMatch - 1];
    }
  }

  lemma StampKeepsTime(me: Side)
    requires TimeInv(me) && me.session.phase == Pinging(None)
    ensures TimeInv(Advance(me, HandshakeTask(true)))
  {
    var me' := Advance(me, HandshakeTask(true));
    assert me'.pings == me.pings + [me.session.clock];
    SamplesSurvive(me, me');
  }

  lemma HandshakeKeepsTime(me: Side, timerFired: bool)
    requires TimeInv(me) && PhaseInv(me.session, me.seqsSent)
    ensures TimeInv(Advance(me, HandshakeTask(timerFired)))
  {
    if me.session.phase == Pinging(None) && timerFired {
      StampKeepsTime(me);
    } else {
      var me' := Advance(me, HandshakeTask(timerFired));
      assert me'.pings == me.pings && me'.samples == me.samples && me'.received == me.received;
      SamplesSurvive(me, me');
      assert me'.session.matched == me.session.matched && me'.session.rtt == me.session.rtt;
    }
  }

  lemma DispatchKeepsTime(me: Side, signal: Signal)
    requires TimeInv(me) && me.session.matched.None?
    ensures TimeInv(Advance(me, DispatchTask(signal)))
  {
    var me' := Advance(me, DispatchTask(signal));
    SamplesSurvive(me, me');
  }

  lemma StoreKeepsTime(me: Side)
    requires TimeInv(me)
    ensures TimeInv(Advance(me, StoreTask))
  {
    var me' := Advance(me, StoreTask);
    SamplesSurvive(me, me');
    if me.session.matched.Some? {
      assert me.session.matched.value in me.pings;
      assert forall x | x in me'.samples :: x in me.samples || x == me'.samples[|me.samples|];
    }
  }

  lemma AdvanceKeepsTime(me: Side, other: Side, e: Event)
    requires TimeInv(me) && PhaseInv(me.session, me.seqsSent) && Enabled(me, other, e)
    ensures TimeInv(Advance(me, e))
  {
    match e
    case HandshakeTask(timerFired) => HandshakeKeepsTime(me, timerFired);
    case DispatchTask(signal) => DispatchKeepsTime(me, signal);
    case StoreTask => StoreKeepsTime(me);
    case MonitorTask => SamplesSurvive(me, Advance(me, e));
    case Tick(_) => SamplesSurvive(me, Advance(me, e));
  }

  lemma HandshakeKeepsSent(me: Side, timerFired: bool)
    requires SentInv(me)
    ensures SentInv(Advance(me, HandshakeTask(timerFired)))
  {
  }

  lemma DispatchKeepsSent(me: Side, signal: Signal)
    requires SentInv(me)
    ensures SentInv(Advance(me, DispatchTask(signal)))
  {
  }

  lemma AdvanceKeepsSent(me: Side, other: Side, e: Event)
    requires SentInv(me) && me.received <= other.sent && Enabled(me, other, e)
    ensures SentInv(Advance(me, e)) && Advance(me, e).received <= other.sent && me.sent <= Advance(me, e).sent
  {
    match e
    case HandshakeTask(timerFired) => HandshakeKeepsSent(me, timerFired);
    case DispatchTask(signal) => DispatchKeepsSent(me, signal);
    case StoreTask =>
    case MonitorTask =>
    case Tick(_) =>
  }

  lemma AdvanceMovesForward(me: Side, other: Side, e: Event)
    requires SideInv(me, other)
    ensures StateAdvances(me, Advance(me, e))
  {
  }

  lemma AdvanceKeeps(me: Side, other: Side, e: Event)
    requires SideInv(me, other) && SideInv(other, me) && Enabled(me, other, e)
    ensures SideInv(Advance(me, e), other) && SideInv(other, Advance(me, e))
  {
    AdvanceKeepsPhase(me, e);
    AdvanceKeepsTime(me, other, e);
    AdvanceKeepsSent(me, other, e);
  }

  lemma StepKeeps(w: World, w': World)
    requires SideInv(w.left, w.right) && SideInv(w.right, w.left) && Step(w, w')
    ensures SideInv(w'.left, w'.right) && SideInv(w'.right, w'.left)
  {
    if e :| Enabled(w.left, w.right, e) && w' == World(Advance(w.left, e), w.right) {
      AdvanceKeeps(w.left, w.right, e);
    } else {
      var e :| Enabled(w.right, w.left, e) && w' == World(w.left, Advance(w.right, e));
      AdvanceKeeps(w.right, w.left, e);
    }
  }

  lemma StepMovesForward(w: World, w': World)
    requires SideInv(w.left, w.right) && SideInv(w.right, w.left) && Step(w, w')
    ensures StateAdvances(w.left, w'.left) && StateAdvances(w.right, w'.right)
  {
    if e :| Enabled(w.left, w.right, e) && w' == World(Advance(w.left, e), w.right) {
      AdvanceMovesForward(w.left, w.right, e);
    } else {
      var e :| Enabled(w.right, w.left, e) && w' == World(w.left, Advance(w.right, e));
      AdvanceMovesForward(w.right, w.left, e);
    }
  }

  lemma {:induction false} RunKeeps(run: seq<World>, i: nat)
    requires IsRun(run) && i < |run|
    ensures SideInv(run[i].left, run[i].right) && SideInv(run[i].right, run[i].left)
    decreases i
  {
    if i != 0 {
      RunKeeps(run, i - 1);
      StepKeeps(run[i - 1], run[i]);
    }
  }

  // ---- the results ----------------------------------------------------------------------------

  function Rank(s: SessionState): nat {
    match s case Connecting => 0 case Connected => 1 case Timeout => 2
  }

  /**
   A step moves the state only forward, to Connected only from Connecting with
   an Ack in hand, and from Connected to Timeout only after the liveness window
   passed in silence.
   */
  ghost predicate StateAdvances(before: Side, after: Side) {
    var s, s' := before.session, after.session;
    && Rank(s.state) <= Rank(s'.state)
    && (s.state != Connected && s'.state == Connected ==> s.state == Connecting && s.phase == Acked)
    && (s.state == Connecting && s'.state == Timeout ==> before.seqsSent == HANDSHAKE_MAX_ATTEMPTS)
    && (s.state == Connected && s'.state == Timeout ==> s.silent.Some? && s.silent.value >= LIVENESS_TIMEOUT)
  }

  /** Every step of every run, in every interleaving, moves both states only forward. */
  lemma RunMovesForward(run: seq<World>, i: nat)
    requires IsRun(run) && 0 < i < |run|
    ensures StateAdvances(run[i - 1].left, run[i].left) && StateAdvances(run[i - 1].right, run[i].right)
  {
    RunKeeps(run, i - 1);
    StepMovesForward(run[i - 1], run[i]);
  }

  /** The rank of a side's state at a point of a run. */
  function RankAt(run: seq<World>, i: nat, left: bool): nat
    requires i < |run|
  {
    Rank(if left then run[i].left.session.state else run[i].right.session.state)
  }

  lemma RankRises(run: seq<World>, i: nat, left: bool)
    requires IsRun(run) && 0 < i < |run|
    ensures RankAt(run, i - 1, left) <= RankAt(run, i, left)
  {
    RunMovesForward(run, i);
  }

  lemma {:induction false} RankNeverFalls(run: seq<World>, i: nat, j: nat, left: bool)
    requires IsRun(run) && i <= j < |run|
    ensures RankAt(run, i, left) <= RankAt(run, j, left)
    decreases j
  {
    if i < j {
      RankNeverFalls(run, i, j - 1, left);
      RankRises(run, j, left);
    }
  }

  /** So Timeout is final, and no state is ever revisited once left. */
  lemma StateNeverReturns(run: seq<World>, i: nat, j: nat)
    requires IsRun(run) && i <= j < |run|
    ensures run[i].left.session.state != Connecting ==> run[j].left.session.state != Connecting
    ensures run[i].right.session.state != Connecting ==> run[j].right.session.state != Connecting
    ensures run[i].left.session.state == Timeout ==> run[j].left.session.state == Timeout
    ensures run[i].right.session.state == Timeout ==> run[j].right.session.state == Timeout
  {
    RankNeverFalls(run, i, j, true);
    RankNeverFalls(run, i, j, false);
  }

  /** A side that is connected was heard: the other side received a Seq with this side's nonce. */
  lemma ConnectedMeansHeard(run: seq<World>, i: nat)
    requires IsRun(run) && i < |run|
    ensures var w := run[i];
            && (w.left.session.state == Connected ==>
                  Signal(SeqSignal, Some(w.left.session.nonce)) in w.right.received)
            && (w.right.session.state == Connected ==>
                  Signal(SeqSignal, Some(w.right.session.nonce)) in w.left.received)
  {
    RunKeeps(run, i);
  }

  /** What is true of every sample `me` holds. */
  ghost predicate GenuineSample(me: Side, other: Side, s: Sample) {
    && 0 < s.pingsAtMatch <= |me.pings|
    && s.ping == me.pings[s.pingsAtMatch - 1]
    && s.rtt == s.storedAt - s.ping
    && Signal(PingSignal, Some(s.ping)) in other.received
    && Signal(PongSignal, Some(s.ping)) in other.sent
  }

  /**
   Every RTT sample is the time since the ping that was the latest one when the
   pong matched, the other side received that ping and answered it, and the
   published RTT is the last sample.
   */
  lemma SamplesAreGenuine(run: seq<World>, i: nat)
    requires IsRun(run) && i < |run|
    ensures var w := run[i];
            && (forall s | s in w.left.samples :: GenuineSample(w.left, w.right, s))
            && (forall s | s in w.right.samples :: GenuineSample(w.right, w.left, s))
    ensures forall me | me in {run[i].left, run[i].right} ::
              me.session.rtt == if me.samples == [] then None else Some(me.samples[|me.samples| - 1].rtt)
  {
    RunKeeps(run, i);
    var w := run[i];
    forall s | s in w.left.samples
      ensures GenuineSample(w.left, w.right, s)
    {
      assert SampleInv(w.left, s);
    }
    forall s | s in w.right.samples
      ensures GenuineSample(w.right, w.left, s)
    {
      assert SampleInv(w.right, s);
    }
  }
}
