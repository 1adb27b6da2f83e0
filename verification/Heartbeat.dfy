/** When a tunnel is declared lost. */
module Heartbeat {
  import opened Bytes

  /** The failure counter has eight bits. */
  datatype Monitor = Monitor(failures: byte, lost: bool)

  function RecordSuccess(m: Monitor): (r: Monitor) {
    m.(failures := 0)
  }

  function RecordFailure(m: Monitor, maxFailures: byte): (r: (Monitor, bool)) {
    var failures: byte := (m.failures + 1) % 256;
    if failures >= maxFailures then (Monitor(failures, true), true) else (m.(failures := failures), false)
  }

  /** The monitor after a trace of heartbeats, `true` for an answered one. */
  function After(trace: seq<bool>, maxFailures: byte): (m: Monitor) {
    if trace == [] then Monitor(0, false)
    else
      var m := After(trace[..|trace| - 1], maxFailures);
      if trace[|trace| - 1] then RecordSuccess(m) else RecordFailure(m, maxFailures).0
  }

  /** Failures at the end of the trace. */
  function Streak(trace: seq<bool>): (n: nat)
    ensures n <= |trace|
  {
    if trace == [] || trace[|trace| - 1] then 0 else Streak(trace[..|trace| - 1]) + 1
  }

  /** `n` heartbeats in a row failed, from position `i` on. */
  predicate FailsFrom(trace: seq<bool>, i: nat, n: nat) {
    i + n <= |trace| && forall k :: i <= k < i + n ==> !trace[k]
  }

  predicate FailsInARow(trace: seq<bool>, n: nat) {
    exists i: nat :: i <= |trace| && FailsFrom(trace, i, n)
  }

  /** The number of failures in a row that it takes; a limit of zero acts as one. */
  function Limit(maxFailures: byte): (n: nat)
    ensures n > 0
  {
    if maxFailures == 0 then 1 else maxFailures
  }

  lemma {:induction false} StreakIsSuffix(trace: seq<bool>, n: nat)
    requires n <= |trace|
    ensures Streak(trace) >= n <==> FailsFrom(trace, |trace| - n, n)
  {
    if n > 0 {
      StreakIsSuffix(trace[..|trace| - 1], n - 1);
    }
  }

  /** A longer trace has the old runs of failures and the one at its end. */
  lemma OneMore(trace: seq<bool>, n: nat)
    requires trace != [] && n > 0
    ensures FailsInARow(trace, n) <==> FailsInARow(trace[..|trace| - 1], n) || Streak(trace) >= n
  {
    hide Streak, FailsFrom;
    var shorter := trace[..|trace| - 1];
    if n <= |trace| {
      StreakIsSuffix(trace, n);
    }
    forall i: nat
      ensures FailsFrom(trace, i, n) <==> FailsFrom(shorter, i, n) || (i + n == |trace| && Streak(trace) >= n)
      ensures FailsFrom(shorter, i, n) ==> i < |trace|
    {
      FailsInFront(trace, i, n);
    }
    StreakIsShort(trace);
    assert Streak(trace) >= n ==> FailsFrom(trace, |trace| - n, n);
  }

  lemma FailsInFront(trace: seq<bool>, i: nat, n: nat)
    requires trace != []
    ensures FailsFrom(trace, i, n) ==> i + n <= |trace|
    ensures FailsFrom(trace[..|trace| - 1], i, n) <==> FailsFrom(trace, i, n) && i + n < |trace|
  {
  }

  lemma {:induction false} StreakIsShort(trace: seq<bool>)
    ensures Streak(trace) <= |trace|
  {
    if trace != [] {
      StreakIsShort(trace[..|trace| - 1]);
    }
  }

  /**
   * For every trace: the tunnel is lost exactly when the limit of failures in a row was reached somewhere in it, also
   * past the point where the counter wraps; and it stays lost.
   */
  lemma {:induction false} LostIffFailuresInARow(trace: seq<bool>, maxFailures: byte)
    ensures After(trace, maxFailures).lost <==> FailsInARow(trace, Limit(maxFailures))
    ensures After(trace, maxFailures).failures == Streak(trace) % 256
  {
    hide FailsInARow, Limit;
    if trace == [] {
      NothingFailed(Limit(maxFailures));
    } else {
      var shorter := trace[..|trace| - 1];
      LostIffFailuresInARow(shorter, maxFailures);
      OneMore(trace, Limit(maxFailures));
      StreakFails(shorter, Limit(maxFailures));
      Wraps(Streak(shorter), maxFailures);
      hide Streak;
    }
  }

  lemma StreakFails(trace: seq<bool>, n: nat)
    requires n > 0
    ensures Streak(trace) >= n ==> FailsInARow(trace, n)
  {
    if trace != [] {
      OneMore(trace, n);
    }
  }

  /** The counter passes the limit before it wraps. */
  lemma Wraps(streak: nat, maxFailures: byte)
    ensures (streak % 256 + 1) % 256 == (streak + 1) % 256
    ensures (streak + 1) % 256 >= maxFailures ==> streak + 1 >= Limit(maxFailures)
    ensures streak + 1 == Limit(maxFailures) ==> (streak + 1) % 256 >= maxFailures
  {
    assert streak == 256 * (streak / 256) + streak % 256;
    if streak % 256 < 255 {
      ModUnique(streak + 1, 256, streak / 256, streak % 256 + 1);
    } else {
      ModUnique(streak + 1, 256, streak / 256 + 1, 0);
    }
  }

  lemma NothingFailed(n: nat)
    requires n > 0
    ensures !FailsInARow([], n)
  {
  }

  /** What a failure reports: not whether the tunnel is lost, but whether the wrapped count reaches the limit. */
  lemma ReportIsWrapped(trace: seq<bool>, maxFailures: byte)
    ensures RecordFailure(After(trace, maxFailures), maxFailures).1 <==> (Streak(trace) + 1) % 256 >= maxFailures
  {
    LostIffFailuresInARow(trace, maxFailures);
    Wraps(Streak(trace), maxFailures);
    hide Streak, After, FailsInARow;
  }

  /**
   * The report and the flag: a failure reports whether the tunnel is lost exactly when it was not lost before, or
   * the wrapped count reaches the limit once more.
   */
  lemma ReportIsFlag(trace: seq<bool>, maxFailures: byte)
    ensures var (m, report) := RecordFailure(After(trace, maxFailures), maxFailures);
            report == m.lost <==> !FailsInARow(trace, Limit(maxFailures)) || (Streak(trace) + 1) % 256 >= maxFailures
  {
    hide Streak, After, FailsInARow;
    LostIffFailuresInARow(trace, maxFailures);
    ReportIsWrapped(trace, maxFailures);
  }

  /** A lost tunnel that answered once more: the next failure reports that it is not lost. */
  lemma ReportAfterRecovery()
    ensures var (m, report) := RecordFailure(After([false, false, true], 2), 2); m.lost && !report
  {
    var trace := [false, false, true];
    assert trace[..2] == [false, false] && trace[..2][..1] == [false] && [false][..0] == [];
    assert After([], 2) == Monitor(0, false);
    assert After([false], 2) == Monitor(1, false);
    assert [false, false][..1] == [false];
    assert After([false, false], 2) == Monitor(2, true);
    assert After(trace, 2) == Monitor(0, true);
  }

  lemma {:induction false} OnlyFailures(n: nat)
    ensures Streak(seq(n, _ => false)) == n
  {
    if n > 0 {
      OnlyFailures(n - 1);
      assert seq(n, _ => false)[..n - 1] == seq(n - 1, _ => false);
    }
  }

  /** The 256th failure in a row reports that the tunnel is not lost, under every limit but zero. */
  lemma ReportAfterWrap(maxFailures: byte)
    requires maxFailures > 0
    ensures var (m, report) := RecordFailure(After(seq(255, _ => false), maxFailures), maxFailures);
            m.lost && !report
  {
    var trace := seq(255, _ => false);
    OnlyFailures(255);
    ReportIsWrapped(trace, maxFailures);
    StreakFails(trace, Limit(maxFailures));
    LostIffFailuresInARow(trace, maxFailures);
    hide Streak, After, FailsInARow;
  }

  class HeartbeatMonitor {
    const maxFailures: byte
    var consecutiveFailures: byte
    var tunnelLost: bool

    ghost function Value(): (m: Monitor)
      reads this
    {
      Monitor(consecutiveFailures, tunnelLost)
    }

    constructor (maxFailures: byte)
      ensures this.maxFailures == maxFailures && Value() == After([], maxFailures)
    {
      this.maxFailures := maxFailures;
      consecutiveFailures, tunnelLost := 0, false;
    }

    method Success()
      modifies this`consecutiveFailures
      ensures Value() == RecordSuccess(old(Value()))
    {
      consecutiveFailures := 0;
    }

    method Failure() returns (lost: bool)
      modifies this
      ensures (Value(), lost) == RecordFailure(old(Value()), maxFailures)
    {
      consecutiveFailures := (consecutiveFailures + 1) % 256;
      if consecutiveFailures >= maxFailures {
        tunnelLost := true;
        return true;
      }
      return false;
    }
  }
}
