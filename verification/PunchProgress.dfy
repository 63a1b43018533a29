/**
 What the tasks of a session do get done: every Seq and Ping is answered, an Ack
 connects, silence and unanswered attempts time out, a pong is published; and
 from every reachable world a waiting session can be connected.
 */
module PunchProgress {
  import opened Wrappers
  import opened UdpSession
  import opened HolePunch

  // ---- replies and samples -----------------------------------------------------------------------

  /** The dispatcher answers a Seq with an Ack and a Ping with a Pong, echoing the value, and stamps the liveness clock. */
  lemma RequestsAreAnswered(me: Side, v: nat)
    ensures Signal(AckSignal, Some(v)) in Advance(me, DispatchTask(Signal(SeqSignal, Some(v)))).sent
    ensures Signal(PongSignal, Some(v)) in Advance(me, DispatchTask(Signal(PingSignal, Some(v)))).sent
  {
  }

  /** Whatever arrives proves the peer alive; what is malformed or of no concern does nothing else. */
  lemma EverythingIsHeard(me: Side, signal: Signal)
    ensures var me' := Advance(me, DispatchTask(signal));
            && me'.session.lastRecv == me.session.clock
            && (signal.value == None || signal.kind == OtherSignal ==>
                  me'.session == me.session.(lastRecv := me.session.clock) && me'.sent == me.sent)
  {
  }

  /** A ping is stamped with the clock and published before it is sent. */
  lemma PingIsStampedThenSent(me: Side)
    requires me.session.phase == Pinging(None)
    ensures var now := me.session.clock;
            var stamped := Advance(me, HandshakeTask(true));
            var sent := Advance(stamped, HandshakeTask(true));
            && stamped.session.lastPing == Some(now) && stamped.sent == me.sent
            && sent.sent == me.sent + {Signal(PingSignal, Some(now))} && sent.session.phase == Pinging(None)
  {
  }

  /** A pong for the latest ping is published as the time since that ping when it is stored; any other pong is not. */
  lemma PongIsPublishedIff(me: Side, t: nat, ms: nat)
    requires me.session.matched.None?
    ensures var heard := Advance(me, DispatchTask(Signal(PongSignal, Some(t))));
            var stored := Advance(Advance(heard, Tick(ms)), StoreTask);
            var later := me.session.clock + ms;
            stored.session.rtt == if me.session.lastPing == Some(t) then Some(if later < t then 0 else later - t) else me.session.rtt
  {
  }

  // ---- connecting and timing out --------------------------------------------------------------------

  /** An Ack with the own nonce connects a waiting session in two steps, whatever the timer does. */
  lemma AckConnects(me: Side, fired: bool, again: bool)
    requires me.session.phase.Waiting?
    ensures var heard := Advance(me, DispatchTask(Signal(AckSignal, Some(me.session.nonce))));
            var acked := Advance(heard, HandshakeTask(fired));
            var done := Advance(acked, HandshakeTask(again));
            acked.session.state == me.session.state && done.session.state == Connected && done.session.phase == Pinging(None) && !done.session.ackPending
  {
  }

  /** No other Ack does. */
  lemma StrangeAckIsIgnored(me: Side, n: nat)
    requires n != me.session.nonce
    ensures Advance(me, DispatchTask(Signal(AckSignal, Some(n)))).session == me.session.(lastRecv := me.session.clock)
  {
  }

  /** Two steps of the monitor time a connected session out if and only if nothing has been heard for 45 seconds. */
  lemma SilenceTimesOutIff(me: Side)
    requires me.session.state == Connected && me.session.silent.None?
    ensures Advance(Advance(me, MonitorTask), MonitorTask).session.state ==
            if me.session.clock - me.session.lastRecv >= 45_000 then Timeout else Connected
  {
  }

  /** The monitor leaves any other session alone. */
  lemma MonitorSparesOthers(me: Side)
    requires me.session.state != Connected && me.session.silent.None?
    ensures Advance(me, MonitorTask) == me
  {
  }

  /** The handshake task `n` times over, with the retry timer always fired. */
  function Alone(me: Side, n: nat): Side
    decreases n
  {
    if n == 0 then me else Alone(Advance(me, HandshakeTask(true)), n - 1)
  }

  /** From its attempt `i` on, a session that hears no Ack sends its Seq once for each attempt left and then times out. */
  lemma {:induction false} UnansweredTimesOut(me: Side, i: nat)
    requires me.session.phase == Sending(i) && i < 5 && !me.session.ackPending
    ensures var done := Alone(me, 2 * (5 - i) + 1);
            && done.session.state == Timeout && done.session.phase == Stopped
            && done.seqsSent == me.seqsSent + 5 - i && done.sent == me.sent + {Signal(SeqSignal, Some(me.session.nonce))}
    decreases 5 - i
  {
    var waiting := Advance(me, HandshakeTask(true));
    var next := Advance(waiting, HandshakeTask(true));
    assert Alone(me, 2 * (5 - i) + 1) == Alone(waiting, 2 * (5 - i)) == Alone(next, 2 * (5 - i) - 1);
    if i + 1 < 5 {
      UnansweredTimesOut(next, i + 1);
    } else {
      assert Alone(next, 1) == Alone(Advance(next, HandshakeTask(true)), 0);
    }
  }

  /** A new session has just been heard, so to speak, and tries five times. */
  lemma FiveAttempts(nonce: nat)
    ensures Fresh(nonce).lastRecv == Fresh(nonce).clock
    ensures var done := Alone(NewSide(nonce), 11); done.session.state == Timeout && done.seqsSent == 5
  {
    UnansweredTimesOut(NewSide(nonce), 0);
  }

  // ---- runs -----------------------------------------------------------------------------------------

  function Mine(w: World, left: bool): Side {
    if left then w.left else w.right
  }

  function Act(w: World, left: bool, e: Event): World {
    if left then World(Advance(w.left, e), w.right) else World(w.left, Advance(w.right, e))
  }

  lemma OneMore(run: seq<World>, left: bool, e: Event) returns (longer: seq<World>)
    requires IsRun(run) && Enabled(Mine(run[|run| - 1], left), Mine(run[|run| - 1], !left), e)
    ensures IsRun(longer) && longer == run + [Act(run[|run| - 1], left, e)]
  {
    var w := run[|run| - 1];
    longer := run + [Act(w, left, e)];
    assert Step(w, Act(w, left, e));
    forall i | 0 < i < |longer|
      ensures Step(longer[i - 1], longer[i])
    {
      assert longer[i - 1] == run[i - 1];
      assert i < |run| ==> longer[i] == run[i];
    }
  }

  /** What has been sent stays sent, and a session that has sent any Seq has sent its own. */
  ghost predicate HasAsked(me: Side) {
    me.seqsSent > 0 ==> Signal(SeqSignal, Some(me.session.nonce)) in me.sent
  }

  lemma {:induction false} RunHasAsked(run: seq<World>, i: nat, left: bool)
    requires IsRun(run) && i < |run|
    ensures HasAsked(Mine(run[i], left))
    decreases i
  {
    if i != 0 {
      RunHasAsked(run, i - 1, left);
      assert Step(run[i - 1], run[i]);
      if Mine(run[i - 1], left) != Mine(run[i], left) {
        var e :| Mine(run[i], left) == Advance(Mine(run[i - 1], left), e);
        AdvanceHasAsked(Mine(run[i - 1], left), e);
      }
    }
  }

  lemma AdvanceHasAsked(me: Side, e: Event)
    requires HasAsked(me)
    ensures HasAsked(Advance(me, e))
  {
  }

  /** A waiting session's Seq can be answered, without a step of its own. */
  lemma WaitingCanBeAnswered(run: seq<World>, left: bool) returns (longer: seq<World>)
    requires IsRun(run) && Mine(run[|run| - 1], left).session.phase.Waiting?
    ensures IsRun(longer) && run <= longer && |longer| == |run| + 2
    ensures var w, w' := run[|run| - 1], longer[|run| + 1];
            && Mine(w', left) == Mine(w, left)
            && Signal(AckSignal, Some(Mine(w, left).session.nonce)) in Mine(w', !left).sent
  {
    var n := Mine(run[|run| - 1], left).session.nonce;
    RunKeeps(run, |run| - 1);
    RunHasAsked(run, |run| - 1, left);
    longer := OneMore(run, !left, StoreTask);
    RequestsAreAnswered(Mine(longer[|run|], !left), n);
    longer := OneMore(longer, !left, DispatchTask(Signal(SeqSignal, Some(n))));
  }

  /** What storing a matched sample leaves alone. */
  lemma StoringWaits(me: Side)
    requires me.session.phase.Waiting?
    ensures var me' := Advance(me, StoreTask);
            me'.session.phase.Waiting? && me'.session.nonce == me.session.nonce && me'.session.matched.None?
  {
  }

  /**
   However a run got there, a session that waits for its Ack can still be
   connected: the other side hears one of its Seqs, it hears the answer, and its
   handshake task runs twice.
   */
  lemma WaitingCanConnect(run: seq<World>, left: bool) returns (longer: seq<World>)
    requires IsRun(run) && Mine(run[|run| - 1], left).session.phase.Waiting?
    ensures IsRun(longer) && run <= longer && |longer| == |run| + 6
    ensures Mine(longer[|longer| - 1], left).session.state == Connected
  {
    longer := WaitingCanBeAnswered(run, left);
    var me := Mine(longer[|longer| - 1], left);
    StoringWaits(me);
    longer := OneMore(longer, left, StoreTask);
    var stored := Advance(me, StoreTask);
    AckConnects(stored, false, false);
    longer := OneMore(longer, left, DispatchTask(Signal(AckSignal, Some(me.session.nonce))));
    longer := OneMore(longer, left, HandshakeTask(false));
    longer := OneMore(longer, left, HandshakeTask(false));
  }
}
