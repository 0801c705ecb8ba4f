/**
  The network rollback watchdog (cmd/ndl-network-rollback/main.go): until the
  deadline it polls, restores the old network at the first failed probe and
  stands down when the change is confirmed.
 */
module Watchdog {
  import opened Common

  const PROBE_WINDOW: Time := 120
  const POLL_EVERY: Time := 2

  /** One poll: the clock, the confirm file, whether the host view could be collected, and the probe on it. */
  datatype Poll = Poll(now: Time, confirmed: bool, viewed: bool, reachable: bool)

  /** The active rollback, its deadline perhaps unset; or none; or a file that cannot be read. */
  datatype Active = Active(deadline: Time) | Missing | Unreadable

  datatype Outcome =
    | NothingActive
    | LoadFailed
    | Confirmed        // the confirm file was seen
    | Healthy          // past the deadline the probe passed
    | Restored
    | RestoreFailed

  function DeadlineOf(a: Active, started: Time): Time
    requires a.Active?
  {
    if a.deadline == ZERO_TIME then started + PROBE_WINDOW else a.deadline
  }

  predicate ProbeFails(p: Poll) { p.viewed && !p.reachable }

  /** Before the deadline a poll without a verdict lets the loop go on. */
  predicate Undecided(p: Poll, deadline: Time) {
    p.now < deadline && !p.confirmed && !ProbeFails(p)
  }

  /**
    A poll that is not confirmed calls for a restore: on a failed probe, and past
    the deadline on anything but a passed one.
   */
  predicate CallsForRestore(p: Poll, deadline: Time) {
    !p.confirmed && if p.now < deadline then ProbeFails(p) else !(p.viewed && p.reachable)
  }

  ghost predicate PassesDeadline(trace: seq<Poll>, deadline: Time) {
    exists i :: 0 <= i < |trace| && trace[i].now >= deadline
  }

  /** Poll k is the first that decides. */
  ghost predicate DecidedAt(trace: seq<Poll>, deadline: Time, k: nat) {
    k < |trace| && !Undecided(trace[k], deadline) && forall j :: 0 <= j < k ==> Undecided(trace[j], deadline)
  }

  /**
    The watchdog on the polls it would make.  It decides at the first poll that
    allows it and calls RestoreActive at most once: exactly when that poll calls
    for it.
   */
  method Watch(active: Active, started: Time, trace: seq<Poll>, restoreWorks: bool)
      returns (outcome: Outcome, restores: nat, polls: nat)
    requires active.Active? ==> PassesDeadline(trace, DeadlineOf(active, started))
    ensures active.Missing? ==> outcome == NothingActive && restores == 0
    ensures active.Unreadable? ==> outcome == LoadFailed && restores == 0
    ensures active.Active? ==>
              var d := DeadlineOf(active, started);
              && polls > 0 && DecidedAt(trace, d, polls - 1)
              && restores == (if CallsForRestore(trace[polls - 1], d) then 1 else 0)
              && (outcome == Confirmed <==> trace[polls - 1].confirmed)
              && (outcome == Healthy <==> restores == 0 && !trace[polls - 1].confirmed)
              && (restores == 1 ==> outcome == if restoreWorks then Restored else RestoreFailed)
    ensures active.Active? ==>
              var d := if active.deadline == 0 then started + 120 else active.deadline;
              var p := trace[polls - 1];
              && (forall j :: 0 <= j < polls - 1 ==>
                    trace[j].now < d && !trace[j].confirmed && (trace[j].viewed ==> trace[j].reachable))
              && (restores == 1 <==>
                    && !p.confirmed && (p.now < d ==> p.viewed && !p.reachable)
                    && (p.now >= d ==> !p.viewed || !p.reachable))
              && (restores == 0 <==> p.confirmed || (p.now >= d && p.viewed && p.reachable))
  {
    restores, polls := 0, 0;
    if active.Missing? {
      return NothingActive, restores, polls;
    }
    if active.Unreadable? {
      return LoadFailed, restores, polls;
    }
    var deadline := active.deadline;
    if deadline == ZERO_TIME {
      deadline := started + PROBE_WINDOW;
    }
    ghost var late :| 0 <= late < |trace| && trace[late].now >= deadline;
    while trace[polls].now < deadline
      invariant polls <= late
      invariant forall j :: 0 <= j < polls ==> Undecided(trace[j], deadline)
      decreases late - polls
    {
      var p := trace[polls];
      if p.confirmed {
        polls := polls + 1;
        return Confirmed, restores, polls;
      }
      if p.viewed {
        if !p.reachable {
          restores, polls := 1, polls + 1;
          return if restoreWorks then Restored else RestoreFailed, restores, polls;
        }
      }
      polls := polls + 1;
    }
    var p := trace[polls];
    polls := polls + 1;
    if p.confirmed {
      return Confirmed, restores, polls;
    }
    if p.viewed && p.reachable {
      return Healthy, restores, polls;
    }
    restores := 1;
    return if restoreWorks then Restored else RestoreFailed, restores, polls;
  }

  lemma DecidedUnique(trace: seq<Poll>, deadline: Time, k: nat, l: nat)
    requires DecidedAt(trace, deadline, k) && DecidedAt(trace, deadline, l)
    ensures k == l
  {
    assert !Undecided(trace[k], deadline) && !Undecided(trace[l], deadline);
  }

  /**
    The restore happens at the first failing probe not preceded by a sighting of
    the confirm file, and without one before the deadline at the first poll past
    it unless that poll sees the file or passes its probe.
   */
  lemma RestoresAtFirstFailure(trace: seq<Poll>, deadline: Time, k: nat, f: nat)
    requires DecidedAt(trace, deadline, k)
    requires f < |trace| && trace[f].now < deadline && ProbeFails(trace[f])
    requires forall j :: 0 <= j < f ==> trace[j].now < deadline && !ProbeFails(trace[j])
    ensures CallsForRestore(trace[k], deadline) <==> forall j :: 0 <= j <= f ==> !trace[j].confirmed
    ensures CallsForRestore(trace[k], deadline) ==> k == f
  {
    if forall j :: 0 <= j <= f ==> !trace[j].confirmed {
      assert DecidedAt(trace, deadline, f);
      DecidedUnique(trace, deadline, k, f);
    } else {
      var c :| 0 <= c <= f && trace[c].confirmed;
      assert !Undecided(trace[c], deadline);
      assert k <= c;
      if k == f { assert trace[k].confirmed; }
    }
  }

  /** Standing down without a restore means the file was seen, or a probe past the deadline passed. */
  lemma StandsDownOnlyWhen(trace: seq<Poll>, deadline: Time, k: nat)
    requires DecidedAt(trace, deadline, k) && !CallsForRestore(trace[k], deadline)
    ensures trace[k].confirmed || (trace[k].now >= deadline && trace[k].viewed && trace[k].reachable)
  {
  }

  /** Sleeping between polls, the watchdog makes at most one poll per interval and one more. */
  lemma PollsAreBounded(trace: seq<Poll>, deadline: Time, k: nat)
    requires DecidedAt(trace, deadline, k)
    requires forall j :: 0 <= j < |trace| - 1 ==> trace[j + 1].now >= trace[j].now + POLL_EVERY
    ensures k > 0 ==> POLL_EVERY * (k - 1) < deadline - trace[0].now
  {
    if k > 0 {
      assert Undecided(trace[k - 1], deadline);
      Elapsed(trace, k - 1);
    }
  }

  lemma {:induction false} Elapsed(trace: seq<Poll>, i: nat)
    requires i < |trace|
    requires forall j :: 0 <= j < |trace| - 1 ==> trace[j + 1].now >= trace[j].now + POLL_EVERY
    ensures trace[i].now >= trace[0].now + POLL_EVERY * i
  {
    if i > 0 { Elapsed(trace, i - 1); }
  }
}
