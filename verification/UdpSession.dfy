/**
 One direct path to a peer and the three tasks that run it: handshake and pings,
 dispatch of what arrives, and the monitor. They share nothing but the session's
 cells, so each method below is one atomic step of one task.
 */
module UdpSession {
  import opened Wrappers

  const HANDSHAKE_MAX_ATTEMPTS := 5

  /** milliseconds */
  const LIVENESS_TIMEOUT := 45_000

  datatype SessionState = Connecting | Connected | Timeout

  datatype SignalKind = SeqSignal | AckSignal | PingSignal | PongSignal | OtherSignal

  /** A control packet; `value` is the nonce or timestamp it carries, if any. */
  datatype Signal = Signal(kind: SignalKind, value: Option<nat>)

  /** Where the handshake task, which ends as the ping loop, stands. */
  datatype Phase =
    | Sending(attempt: nat)
    | Waiting(attempt: nat)
    | Acked
    | GivingUp
    | Pinging(stamped: Option<nat>)
    | Stopped

  /** The session's shared cells and each task's local state. */
  datatype Session = Session(
    nonce: nat,
    state: SessionState,
    phase: Phase,
    ackPending: bool,
    lastRecv: nat,
    lastPing: Option<nat>,
    rtt: Option<nat>,
    matched: Option<nat>,
    silent: Option<nat>,
    clock: nat)

  function Fresh(nonce: nat): Session {
    Session(nonce, Connecting, Sending(0), false, 0, None, None, None, None, 0)
  }

  /** The handshake task: send Seq, wait for the Ack or the retry timer, up to five times; then ping. */
  function Handshake(s: Session, timerFired: bool): (Session, Option<Signal>) {
    match s.phase
    case Sending(i) => (s.(phase := Waiting(i)), Some(Signal(SeqSignal, Some(s.nonce))))
    case Waiting(i) =>
      if s.ackPending then (s.(ackPending := false, phase := Acked), None)
      else if !timerFired then (s, None)
      else if i + 1 < HANDSHAKE_MAX_ATTEMPTS then (s.(phase := Sending(i + 1)), None)
      else (s.(phase := GivingUp), None)
    case Acked => (s.(state := Connected, phase := Pinging(None)), None)
    case GivingUp => (s.(state := Timeout, phase := Stopped), None)
    case Pinging(None) =>
      if timerFired then (s.(lastPing := Some(s.clock), phase := Pinging(Some(s.clock))), None) else (s, None)
    case Pinging(Some(at)) => (s.(phase := Pinging(None)), Some(Signal(PingSignal, Some(at))))
    case Stopped => (s, None)
  }

  /** The dispatcher takes one datagram; a pong that matches is stored by `StoreSample`. */
  function Dispatch(s: Session, signal: Signal): (Session, Option<Signal>) {
    var s := s.(lastRecv := s.clock);
    match signal
    case Signal(AckSignal, Some(n)) => (if n == s.nonce then s.(ackPending := true) else s, None)
    case Signal(SeqSignal, Some(n)) => (s, Some(Signal(AckSignal, Some(n))))
    case Signal(PingSignal, Some(t)) => (s, Some(Signal(PongSignal, Some(t))))
    case Signal(PongSignal, Some(t)) => (if s.lastPing == Some(t) then s.(matched := Some(t)) else s, None)
    case _ => (s, None)
  }

  function StoreSample(s: Session): Session {
    match s.matched
    case None => s
    case Some(sent) =>
      s.(matched := None, rtt := Some(if s.clock >= sent then s.clock - sent else 0))
  }

  /** The monitor looks at a connected session, and demotes it in a second step. */
  function Monitor(s: Session): Session {
    match s.silent
    case Some(_) => s.(state := Timeout, silent := None)
    case None =>
      var quiet: nat := if s.clock >= s.lastRecv then s.clock - s.lastRecv else 0;
      if s.state == Connected && quiet >= LIVENESS_TIMEOUT then s.(silent := Some(quiet)) else s
  }

  class UdpTunnelSession {
    const nonce: nat
    var state: SessionState
    var phase: Phase
    var ackPending: bool
    var lastRecv: nat
    var lastPing: Option<nat>
    var rtt: Option<nat>
    var matched: Option<nat>
    var silent: Option<nat>
    /** Milliseconds since the session began; no task sets it. */
    var clock: nat

    function Value(): Session
      reads this
    {
      Session(nonce, state, phase, ackPending, lastRecv, lastPing, rtt, matched, silent, clock)
    }

    constructor (nonce: nat)
      ensures Value() == Fresh(nonce)
    {
      this.nonce := nonce;
      state, phase, ackPending := Connecting, Sending(0), false;
      lastRecv, lastPing, rtt, matched, silent, clock := 0, None, None, None, None, 0;
    }

    method RunHandshake(timerFired: bool) returns (out: Option<Signal>)
      modifies this
      ensures (Value(), out) == Handshake(old(Value()), timerFired)
    {
      out := None;
      match phase {
        case Sending(i) =>
          out := Some(Signal(SeqSignal, Some(nonce)));
          phase := Waiting(i);
        case Waiting(i) =>
          if ackPending {
            ackPending := false;
            phase := Acked;
          } else if timerFired {
            phase := if i + 1 < HANDSHAKE_MAX_ATTEMPTS then Sending(i + 1) else GivingUp;
          }
        case Acked =>
          state := Connected;
          phase := Pinging(None);
        case GivingUp =>
          state := Timeout;
          phase := Stopped;
        case Pinging(None) =>
          if timerFired {
            lastPing := Some(clock);
            phase := Pinging(Some(clock));
          }
        case Pinging(Some(at)) =>
          out := Some(Signal(PingSignal, Some(at)));
          phase := Pinging(None);
        case Stopped =>
      }
    }

    method RunDispatch(signal: Signal) returns (out: Option<Signal>)
      modifies this
      ensures (Value(), out) == Dispatch(old(Value()), signal)
    {
      out := None;
      lastRecv := clock;
      match signal {
        case Signal(AckSignal, Some(n)) =>
          if n == nonce {
            ackPending := true;
          }
        case Signal(SeqSignal, Some(n)) =>
          out := Some(Signal(AckSignal, Some(n)));
        case Signal(PingSignal, Some(t)) =>
          out := Some(Signal(PongSignal, Some(t)));
        case Signal(PongSignal, Some(t)) =>
          if lastPing == Some(t) {
            matched := Some(t);
          }
        case _ =>
      }
    }

    method RunStoreSample()
      modifies this
      ensures Value() == StoreSample(old(Value()))
    {
      if matched.Some? {
        rtt := Some(if clock >= matched.value then clock - matched.value else 0);
        matched := None;
      }
    }

    method RunMonitor()
      modifies this
      ensures Value() == Monitor(old(Value()))
    {
      if silent.Some? {
        state := Timeout;
        silent := None;
      } else if state == Connected {
        var quiet := if clock >= lastRecv then clock - lastRecv else 0;
        if quiet >= LIVENESS_TIMEOUT {
          silent := Some(quiet);
        }
      }
    }
  }
}
