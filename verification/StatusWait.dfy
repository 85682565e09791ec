/** Waiting for a backup to complete: the poll closures of the two waits, run by the retry helper
    until a poll is decisive or the deadline passes. */
module StatusWait {

  datatype Status =
    | Invalid | Pending | InProgress | Aborted | Failed | Deleting | Success
    | Captured | PartialSuccess | DeletePending | CloudBackupMissing

  /** What one `Inspect` call shows. */
  datatype Observation = InspectError | Observed(status: Status)

  datatype Goal = Completion | PartialCompletion

  /** What a poll closure returns: whether to retry, and whether it returned an error. */
  datatype Poll = Poll(retry: bool, failed: bool)

  datatype Result = Done | GaveUp(status: Status) | TimedOut | NoBackup

  function Target(goal: Goal): Status {
    match goal
    case Completion => Success
    case PartialCompletion => PartialSuccess
  }

  /** The statuses that end the wait with an error; full success is one when a partial success is
      awaited, but not the other way around. */
  predicate Hopeless(goal: Goal, s: Status) {
    s in {Failed, Aborted, Invalid} || (goal.PartialCompletion? && s == Success)
  }

  predicate Decisive(goal: Goal, o: Observation) {
    o.Observed? && (o.status == Target(goal) || Hopeless(goal, o.status))
  }

  /** The polls that end a wait, by status. */
  lemma DecisiveMeans(o: Observation)
    ensures Decisive(Completion, o) <==>
            o in {Observed(Success), Observed(Failed), Observed(Aborted), Observed(Invalid)}
    ensures Decisive(PartialCompletion, o) <==>
            o in {Observed(PartialSuccess), Observed(Success), Observed(Failed), Observed(Aborted), Observed(Invalid)}
    ensures Target(Completion) == Success && Target(PartialCompletion) == PartialSuccess
  {
  }

  /** Observation `i` is the first decisive one, and it shows `s`. */
  ghost predicate FirstDecisive(goal: Goal, trace: seq<Observation>, i: nat, s: Status) {
    && i < |trace| && trace[i] == Observed(s) && Decisive(goal, trace[i])
    && forall j | 0 <= j < i :: !Decisive(goal, trace[j])
  }

  /** The poll closure; `backupError` is the variable it captures. */
  method PollOnce(goal: Goal, o: Observation, backupError: bool) returns (p: Poll, backupError': bool)
    ensures p.retry <==> !Decisive(goal, o)
    ensures !p.failed <==> o == Observed(Target(goal))
    ensures backupError' <==> backupError || (o.Observed? && Hopeless(goal, o.status))
    ensures goal.Completion? ==>
              && (p.retry <==> o.InspectError? || o.status !in {Success, Failed, Aborted, Invalid})
              && (!p.failed <==> o == Observed(Success))
    ensures goal.PartialCompletion? ==>
              && (p.retry <==> o.InspectError? || o.status !in {PartialSuccess, Success, Failed, Aborted, Invalid})
              && (!p.failed <==> o == Observed(PartialSuccess))
  {
    backupError' := backupError;
    if o.InspectError? {
      return Poll(true, true), backupError';
    }
    if o.status == Target(goal) {
      return Poll(false, false), backupError';
    } else if o.status == Failed || o.status == Aborted || o.status == Invalid
              || (goal.PartialCompletion? && o.status == Success) {
      return Poll(false, true), true;
    }
    return Poll(true, true), backupError';
  }

  /** A wait: `found` says whether the backup's uid was looked up, and `trace` holds the polls that
      fit before the deadline. It succeeds exactly when the first decisive status is its target. */
  method WaitForBackup(goal: Goal, found: bool, trace: seq<Observation>) returns (r: Result)
    ensures r.NoBackup? <==> !found
    ensures r.Done? <==> found && exists i: nat :: FirstDecisive(goal, trace, i, Target(goal))
    ensures r.TimedOut? <==> found && forall i | 0 <= i < |trace| :: !Decisive(goal, trace[i])
    ensures r.GaveUp? ==> Hopeless(goal, r.status) && exists i: nat :: FirstDecisive(goal, trace, i, r.status)
    ensures r.GaveUp? && goal.Completion? ==> r.status in {Failed, Aborted, Invalid}
    ensures r.GaveUp? && goal.PartialCompletion? ==> r.status in {Success, Failed, Aborted, Invalid}
  {
    if !found {
      return NoBackup;
    }
    var backupError := false;
    var t := 0;
    while t < |trace|
      invariant 0 <= t <= |trace|
      invariant !backupError
      invariant forall j | 0 <= j < t :: !Decisive(goal, trace[j])
    {
      var p;
      p, backupError := PollOnce(goal, trace[t], backupError);
      if p.failed {
        if !p.retry {
          assert FirstDecisive(goal, trace, t, trace[t].status);
          return GaveUp(trace[t].status);
        }
      } else {
        assert FirstDecisive(goal, trace, t, Target(goal));
        return Done;
      }
      t := t + 1;
    }
    return TimedOut;
  }

  // ----- two waits on one backup -----

  /** Polls made at increasing times on a backup whose status over time is `history`. */
  ghost predicate Sees(history: nat -> Status, times: seq<nat>, trace: seq<Observation>) {
    && |times| == |trace|
    && (forall i, j | 0 <= i < j < |times| :: times[i] < times[j])
    && (forall i | 0 <= i < |trace| :: trace[i].Observed? ==> trace[i].status == history(times[i]))
  }

  /** A backup that reached one of the two successes keeps it. */
  ghost predicate Settles(history: nat -> Status) {
    forall t: nat, u: nat | t <= u && history(t) in {Success, PartialSuccess} :: history(u) == history(t)
  }

  ghost predicate Completes(goal: Goal, trace: seq<Observation>) {
    exists i: nat :: FirstDecisive(goal, trace, i, Target(goal))
  }

  lemma OneSuccess(history: nat -> Status, t: nat, u: nat)
    requires Settles(history)
    ensures !(history(t) == Success && history(u) == PartialSuccess)
  {
    assert t <= u || u <= t;
  }

  /** However the polls of the two waits interleave, at most one of them can succeed. */
  lemma NeverBoth(history: nat -> Status, times1: seq<nat>, trace1: seq<Observation>,
                  times2: seq<nat>, trace2: seq<Observation>)
    requires Settles(history)
    requires Sees(history, times1, trace1) && Sees(history, times2, trace2)
    ensures !(Completes(Completion, trace1) && Completes(PartialCompletion, trace2))
  {
    if Completes(Completion, trace1) {
      var i: nat :| FirstDecisive(Completion, trace1, i, Success);
      forall j: nat ensures !FirstDecisive(PartialCompletion, trace2, j, PartialSuccess) {
        if j < |trace2| {
          OneSuccess(history, times1[i], times2[j]);
        }
      }
    }
  }

  /** The waits differ on the other's success. Once a backup is partially successful, every later
      poll of the completion wait is indecisive, so it cannot end before its deadline. Once a backup
      is fully successful, every answered poll of the partial wait ends it. */
  lemma OtherSuccess(history: nat -> Status, times: seq<nat>, trace: seq<Observation>, settled: nat, i: nat)
    requires Settles(history)
    requires Sees(history, times, trace) && i < |trace| && settled <= times[i]
    ensures history(settled) == PartialSuccess ==> !Decisive(Completion, trace[i])
    ensures history(settled) == Success && trace[i].Observed? ==>
              Decisive(PartialCompletion, trace[i]) && Hopeless(PartialCompletion, trace[i].status)
  {
    assert history(settled) in {Success, PartialSuccess} ==> history(times[i]) == history(settled);
  }
}
