/**
 Turning IPv4 forwarding on and putting it back, across crashes. Each
 operation is a sequence of system calls and may stop, by an error or a crash,
 after any number of them, or in the middle of writing the file.
 */
module Forwarding {
  import opened Wrappers
  import opened Text

  /** What outlives the process: the sysctl and the saved original. */
  datatype Disk = Disk(ipForward: bool, saved: Option<string>)

  datatype Outcome = Changed | Unchanged | Stopped

  function Encode(on: bool): string {
    if on then "1" else "0"
  }

  function Decode(content: string): bool {
    Trim(content) == "1"
  }

  /** Where `enable` has got to after `calls` system calls: read, then mkdir and save unless saved, then write unless on. */
  function Enable(d: Disk, calls: nat): (Disk, Outcome) {
    if calls < 1 then (d, Stopped)
    else if d.saved.None? && calls < 3 then (d, Stopped)
    else
      var used := if d.saved.None? then 3 else 1;
      var saved := d.(saved := if d.saved.None? then Some(Encode(d.ipForward)) else d.saved);
      if d.ipForward then (saved, Unchanged)
      else if calls < used + 1 then (saved, Stopped)
      else (saved.(ipForward := true), Changed)
  }

  /** The same for `restore`: read the file, read the sysctl, write it if it differs, remove the file. */
  function Restore(d: Disk, calls: nat): (Disk, Outcome) {
    if calls < 1 then (d, Stopped)
    else match d.saved
      case None => (d, Unchanged)
      case Some(content) =>
        var original := Decode(content);
        var differs := d.ipForward != original;
        if calls < 2 || (differs && calls < 3) then (d, Stopped)
        else
          var put := d.(ipForward := original);
          if calls < (if differs then 4 else 3) then (put, Stopped)
          else (put.(saved := None), Changed)
  }

  /** A save that broke off: the file was created, or emptied, and its one character is missing. */
  function Tear(d: Disk): Disk {
    if d.saved.None? then d.(saved := Some("")) else d
  }

  class Host {
    var disk: Disk

    constructor (ipForward: bool)
      ensures disk == Disk(ipForward, None)
    {
      disk := Disk(ipForward, None);
    }

    /**
     `budget` is the number of system calls that succeed before one fails or the
     process dies; `torn` says that it dies inside the next one if that is the save.
     */
    method RunEnable(budget: nat, torn: bool) returns (outcome: Outcome)
      modifies this
      ensures (disk, outcome) ==
              if torn && budget == 2 && old(disk).saved.None? then (Tear(old(disk)), Stopped) else Enable(old(disk), budget)
    {
      var left := budget;
      if left == 0 {
        return Stopped;
      }
      var current := disk.ipForward;
      left := left - 1;
      if disk.saved.None? {
        if left < 2 {
          if left == 1 && torn {
            disk := disk.(saved := Some(""));
          }
          return Stopped;
        }
        disk := disk.(saved := Some(Encode(current)));
        left := left - 2;
      }
      if current {
        return Unchanged;
      }
      if left == 0 {
        return Stopped;
      }
      disk := disk.(ipForward := true);
      return Changed;
    }

    method RunRestore(budget: nat) returns (outcome: Outcome)
      modifies this
      ensures (disk, outcome) == Restore(old(disk), budget)
    {
      var left := budget;
      if left == 0 {
        return Stopped;
      }
      left := left - 1;
      if disk.saved.None? {
        return Unchanged;
      }
      var original := Decode(disk.saved.value);
      if left == 0 {
        return Stopped;
      }
      left := left - 1;
      if disk.ipForward != original {
        if left == 0 {
          return Stopped;
        }
        disk := disk.(ipForward := original);
        left := left - 1;
      }
      if left == 0 {
        return Stopped;
      }
      disk := disk.(saved := None);
      return Changed;
    }
  }

  // ---- the calls one by one -------------------------------------------------------------------------

  /** The disk after each call of `enable`: read; make the directory and save, unless saved; write, unless on. */
  function EnableCalls(d: Disk): (trace: seq<Disk>)
    ensures trace != []
  {
    var saved := d.(saved := Some(Encode(d.ipForward)));
    var known := if d.saved.Some? then [d] else [d, d, saved];
    known + if d.ipForward then [] else [known[|known| - 1].(ipForward := true)]
  }

  /** The disk after each call of `restore`: read the file; read the sysctl; write it, if it differs; remove the file. */
  function RestoreCalls(d: Disk): (trace: seq<Disk>)
    ensures trace != []
  {
    match d.saved
    case None => [d]
    case Some(content) =>
      var put := d.(ipForward := Decode(content));
      (if put == d then [d, d] else [d, d, put]) + [put.(saved := None)]
  }

  /** Where a trace has got to after `calls` of its calls. */
  function Reached(d: Disk, trace: seq<Disk>, calls: nat): Disk
    requires trace != []
  {
    if calls == 0 then d else if calls <= |trace| then trace[calls - 1] else trace[|trace| - 1]
  }

  /** After any number of calls the disk is where the call sequence has got to, and the attempt is over once all were made. */
  lemma AttemptsFollowTheirCalls(d: Disk, calls: nat)
    ensures Enable(d, calls).0 == Reached(d, EnableCalls(d), calls)
    ensures Enable(d, calls).1 == (if calls < |EnableCalls(d)| then Stopped else if d.ipForward then Unchanged else Changed)
    ensures Restore(d, calls).0 == Reached(d, RestoreCalls(d), calls)
    ensures Restore(d, calls).1 == (if calls < |RestoreCalls(d)| then Stopped else if d.saved.None? then Unchanged else Changed)
  {
  }

  // ---- whole histories ------------------------------------------------------------------------------

  /** One attempt, and after how many calls it stopped if it did not finish; or an enable that died while it was saving. */
  datatype Attempt = EnableFor(calls: nat) | RestoreFor(calls: nat) | TornEnable

  function After(d: Disk, a: Attempt): Disk {
    match a
    case EnableFor(calls) => Enable(d, calls).0
    case RestoreFor(calls) => Restore(d, calls).0
    case TornEnable => Tear(d)
  }

  function AfterAll(d: Disk, attempts: seq<Attempt>): Disk
    decreases attempts
  {
    if attempts == [] then d else AfterAll(After(d, attempts[0]), attempts[1..])
  }

  /** No saved file: the sysctl is the original. A saved file: it reads as the original. */
  ghost predicate Safe(d: Disk, original: bool) {
    match d.saved
    case None => d.ipForward == original
    case Some(content) => Decode(content) == original
  }

  /** No saved file, or one that was written in full. */
  ghost predicate Whole(d: Disk, original: bool) {
    d.saved.Some? ==> d.saved.value == Encode(original)
  }

  lemma DecodeEncode(on: bool)
    ensures Decode(Encode(on)) == on && !Decode("")
  {
  }

  lemma AttemptKeepsSafe(d: Disk, original: bool, a: Attempt)
    requires Safe(d, original) && (original ==> a != TornEnable)
    ensures Safe(After(d, a), original)
    ensures Whole(d, original) && a != TornEnable ==> Whole(After(d, a), original)
  {
    DecodeEncode(original);
  }

  /** Across any sequence of attempts, each stopped anywhere, the original is not lost, unless it was on and a save was torn. */
  lemma {:induction false} HistoryKeepsSafe(d: Disk, original: bool, attempts: seq<Attempt>)
    requires Safe(d, original) && (original ==> TornEnable !in attempts)
    ensures Safe(AfterAll(d, attempts), original)
    ensures Whole(d, original) && TornEnable !in attempts ==> Whole(AfterAll(d, attempts), original)
    decreases attempts
  {
    if attempts != [] {
      AttemptKeepsSafe(d, original, attempts[0]);
      HistoryKeepsSafe(After(d, attempts[0]), original, attempts[1..]);
    }
  }

  /** After any such history, an enable that runs to its end has forwarding on, and a restore that does has the original back. */
  lemma FinishedAttemptsReachTheirGoal(original: bool, attempts: seq<Attempt>, calls: nat)
    requires original ==> TornEnable !in attempts
    ensures var d := AfterAll(Disk(original, None), attempts);
            && (Enable(d, calls).1 != Stopped ==>
                  Enable(d, calls).0.ipForward && Enable(d, calls).0.saved.Some? && Safe(Enable(d, calls).0, original))
            && (Enable(d, calls).1 != Stopped && TornEnable !in attempts ==>
                  Enable(d, calls).0 == Disk(true, Some(Encode(original))))
            && (Restore(d, calls).1 != Stopped ==> Restore(d, calls).0 == Disk(original, None))
            && (calls >= 4 ==> Enable(d, calls).1 != Stopped && Restore(d, calls).1 != Stopped)
  {
    HistoryKeepsSafe(Disk(original, None), original, attempts);
    DecodeEncode(original);
  }

  // ---- torn saves -----------------------------------------------------------------------------------

  /**
   With the original on, a torn save loses it: the next restore that finishes
   turns forwarding off, and from then on every history, whatever else it
   attempts, restores to off.
   */
  lemma TornSaveLosesOn(attempts: seq<Attempt>, later: seq<Attempt>, calls: nat)
    requires TornEnable !in attempts && AfterAll(Disk(true, None), attempts).saved.None? && calls >= 4
    ensures var lost := Restore(Tear(AfterAll(Disk(true, None), attempts)), calls).0;
            lost == Disk(false, None) && Restore(AfterAll(lost, later), calls).0 == Disk(false, None)
  {
    HistoryKeepsSafe(Disk(true, None), true, attempts);
    DecodeEncode(true);
    HistoryKeepsSafe(Disk(false, None), false, later);
  }

  /** Some save was torn in this history, that is, some torn attempt found no saved file. */
  predicate TearsASave(d: Disk, attempts: seq<Attempt>)
    decreases attempts
  {
    attempts != [] && ((attempts[0] == TornEnable && d.saved.None?) || TearsASave(After(d, attempts[0]), attempts[1..]))
  }

  /** From a disk that is safe with the original on, a history stays so unless it tears a save; from then on it reads as off. */
  lemma {:induction false} TearsDecide(d: Disk, attempts: seq<Attempt>)
    requires Safe(d, true)
    ensures Safe(AfterAll(d, attempts), !TearsASave(d, attempts))
    decreases attempts
  {
    if attempts != [] {
      var next := After(d, attempts[0]);
      if attempts[0] == TornEnable && d.saved.None? {
        DecodeEncode(true);
        HistoryKeepsSafe(next, false, attempts[1..]);
      } else {
        if attempts[0] != TornEnable {
          AttemptKeepsSafe(d, true, attempts[0]);
        }
        TearsDecide(next, attempts[1..]);
      }
    }
  }

  lemma RestoreOfSafe(d: Disk, original: bool, calls: nat)
    requires Safe(d, original) && calls >= 4
    ensures Restore(d, calls).0 == Disk(original, None)
  {
  }

  /** A restore that finishes gives back the original if and only if it was off or no save was torn on the way. */
  lemma RestoresOriginalIff(original: bool, attempts: seq<Attempt>, calls: nat)
    requires calls >= 4
    ensures var start := Disk(original, None);
            Restore(AfterAll(start, attempts), calls).0 == start <==> !(original && TearsASave(start, attempts))
  {
    var start := Disk(original, None);
    if original {
      TearsDecide(start, attempts);
      RestoreOfSafe(AfterAll(start, attempts), !TearsASave(start, attempts), calls);
    } else {
      HistoryKeepsSafe(start, false, attempts);
      RestoreOfSafe(AfterAll(start, attempts), false, calls);
    }
  }

  /** So torn saves are harmless in every history if and only if forwarding was off. */
  lemma TearingIsHarmlessIff(original: bool)
    ensures (forall attempts, calls: nat | calls >= 4 ::
               Restore(AfterAll(Disk(original, None), attempts), calls).0 == Disk(original, None))
            <==> !original
  {
    if original {
      var attempts, calls: nat := [TornEnable], 4;
      assert TearsASave(Disk(original, None), attempts);
      RestoresOriginalIff(original, attempts, calls);
      assert Restore(AfterAll(Disk(original, None), attempts), calls).0 != Disk(original, None);
    } else {
      forall attempts, calls: nat | calls >= 4
        ensures Restore(AfterAll(Disk(original, None), attempts), calls).0 == Disk(original, None)
      {
        RestoresOriginalIff(original, attempts, calls);
      }
    }
  }
}
