/** The confirmation state machine of one monitor, and what it means for a whole history of checks. */
module Incidents {
  import opened Rows
  import opened Schema

  /** What one authenticated check does to the incident tables. */
  datatype Action = Nothing | Open(openedAt: int) | Change(previous: State) | Resolve

  datatype Transition = Transition(next: MonitorState, action: Action)

  /** The row inserted for a monitor that has none. */
  function Fresh(at: int): MonitorState {
    MonitorState(Healthy, at, Healthy, 0, 0, 0, None)
  }

  /** One authenticated check, with the thresholds the monitor has at that moment. */
  function Advance(ms: MonitorState, state: State, at: int, failureThreshold: int, recoveryThreshold: int): Transition {
    var seen := ms.(lastRaw := state, lastCheckAt := Some(at));
    if state == Unknown then
      Transition(seen.(failureStreak := 0, failureStartedAt := 0, recoveryStreak := 0), Nothing)
    else if state == Healthy then
      var calm := seen.(failureStreak := 0, failureStartedAt := 0);
      if ms.current == Healthy then
        Transition(calm.(recoveryStreak := 0), Nothing)
      else if ms.recoveryStreak + 1 >= recoveryThreshold then
        Transition(calm.(current := Healthy, stateSince := at, recoveryStreak := 0), Resolve)
      else
        Transition(calm.(recoveryStreak := ms.recoveryStreak + 1), Nothing)
    else
      var streak := if ms.lastRaw == state then ms.failureStreak + 1 else 1;
      var started := if ms.lastRaw == state then ms.failureStartedAt else at;
      var failing := seen.(recoveryStreak := 0, failureStreak := streak, failureStartedAt := started);
      if ms.current == Healthy && streak >= failureThreshold then
        Transition(failing.(current := state, stateSince := started), Open(started))
      else if ms.current != Healthy && ms.current != state then
        Transition(failing.(current := state, stateSince := at), Change(ms.current))
      else
        Transition(failing, Nothing)
  }

  // ----- Whole histories -----

  /** One authenticated check in the history of a monitor since its last reset. */
  datatype Observation = Observation(state: State, at: int, failureThreshold: int, recoveryThreshold: int)

  function After(history: seq<Observation>): MonitorState
    requires history != []
  {
    var last := history[|history| - 1];
    var before := if |history| == 1 then Fresh(last.at) else After(history[..|history| - 1]);
    Advance(before, last.state, last.at, last.failureThreshold, last.recoveryThreshold).next
  }

  /** The thresholds are validated to be at least 1 when a monitor is saved. */
  ghost predicate SaneThresholds(history: seq<Observation>) {
    forall i :: 0 <= i < |history| ==> history[i].failureThreshold >= 1 && history[i].recoveryThreshold >= 1
  }

  ghost predicate TimesAscend(history: seq<Observation>) {
    forall i, j :: 0 <= i < j < |history| ==> history[i].at <= history[j].at
  }

  /** Check i completes a run of equal failures as long as the failure threshold in force. */
  ghost predicate FailureConfirmed(history: seq<Observation>, i: int) {
    && 0 <= i < |history|
    && Failing(history[i].state)
    && history[i].failureThreshold <= i + 1
    && forall j :: i - history[i].failureThreshold < j <= i ==> history[j].state == history[i].state
  }

  /** Check i completes a run of healthy checks as long as the recovery threshold in force. */
  ghost predicate RecoveryConfirmed(history: seq<Observation>, i: int) {
    && 0 <= i < |history|
    && history[i].recoveryThreshold <= i + 1
    && forall j :: i - history[i].recoveryThreshold < j <= i ==> history[j].state == Healthy
  }

  /** The latest confirmed failure is later than the latest confirmed recovery. */
  ghost predicate ConfirmedDown(history: seq<Observation>) {
    exists i :: FailureConfirmed(history, i) && forall j :: i < j < |history| ==> !RecoveryConfirmed(history, j)
  }

  /** How many checks at the end of the history share the state of the last one. */
  function TrailingRun(history: seq<Observation>): nat {
    if history == [] then 0
    else if |history| == 1 || history[|history| - 2].state != history[|history| - 1].state then 1
    else TrailingRun(history[..|history| - 1]) + 1
  }

  /** The trailing run is the longest: its checks agree, and the check before it differs. */
  lemma {:induction false} TrailingRunIsMaximal(history: seq<Observation>)
    requires history != []
    ensures var n := TrailingRun(history);
      && 1 <= n <= |history|
      && (forall j :: |history| - n <= j < |history| ==> history[j].state == history[|history| - 1].state)
      && (n < |history| ==> history[|history| - n - 1].state != history[|history| - 1].state)
  {
    if |history| > 1 {
      TrailingRunIsMaximal(history[..|history| - 1]);
    }
  }

  /** A state row whose last check is `last`, the end of a run of n equal checks that began at `started`. */
  ghost predicate Tallies(ms: MonitorState, last: Observation, n: int, started: int) {
    && ms.lastRaw == last.state
    && ms.lastCheckAt == Some(last.at)
    && ms.current != Unknown
    && ms.failureStreak == (if Failing(last.state) then n else 0)
    && ms.failureStartedAt == (if Failing(last.state) then started else 0)
    && ms.recoveryStreak == (if last.state == Healthy && ms.current != Healthy then n else 0)
  }

  function AdvanceBy(ms: MonitorState, o: Observation): Transition {
    Advance(ms, o.state, o.at, o.failureThreshold, o.recoveryThreshold)
  }

  lemma FirstTally(o: Observation)
    ensures Tallies(AdvanceBy(Fresh(o.at), o).next, o, 1, o.at)
  {
  }

  lemma NextTally(ms: MonitorState, last: Observation, n: int, started: int, o: Observation)
    requires Tallies(ms, last, n, started)
    ensures Tallies(AdvanceBy(ms, o).next, o, if o.state == last.state then n + 1 else 1,
                    if o.state == last.state then started else o.at)
  {
  }

  /** The stored counters are exactly the lengths of the trailing runs. */
  lemma {:induction false} CountersAreTrailingRuns(history: seq<Observation>)
    requires history != []
    ensures var ms, last, n := After(history), history[|history| - 1], TrailingRun(history);
      && 1 <= n <= |history|
      && ms.lastRaw == last.state
      && ms.lastCheckAt == Some(last.at)
      && ms.current != Unknown
      && ms.failureStreak == (if Failing(last.state) then n else 0)
      && ms.failureStartedAt == (if Failing(last.state) then history[|history| - n].at else 0)
      && ms.recoveryStreak == (if last.state == Healthy && ms.current != Healthy then n else 0)
  {
    var last := history[|history| - 1];
    if |history| == 1 {
      FirstTally(last);
    } else {
      var init := history[..|history| - 1];
      CountersAreTrailingRuns(init);
      NextTally(After(init), init[|init| - 1], TrailingRun(init), init[|init| - TrailingRun(init)].at, last);
    }
  }

  lemma ConfirmedAtTheEnd(history: seq<Observation>)
    requires history != [] && SaneThresholds(history)
    ensures var last, i := history[|history| - 1], |history| - 1;
      && (FailureConfirmed(history, i) <==> Failing(last.state) && TrailingRun(history) >= last.failureThreshold)
      && (RecoveryConfirmed(history, i) <==> last.state == Healthy && TrailingRun(history) >= last.recoveryThreshold)
  {
    TrailingRunIsMaximal(history);
  }

  lemma ConfirmedEarlier(history: seq<Observation>, i: int)
    requires history != [] && i < |history| - 1
    ensures FailureConfirmed(history, i) <==> FailureConfirmed(history[..|history| - 1], i)
    ensures RecoveryConfirmed(history, i) <==> RecoveryConfirmed(history[..|history| - 1], i)
  {
  }

  /** One more check changes the declarative verdict only where it completes a run. */
  lemma DownOneCheckLater(history: seq<Observation>)
    requires history != [] && SaneThresholds(history)
    ensures var i := |history| - 1;
      ConfirmedDown(history) <==>
        FailureConfirmed(history, i) || (ConfirmedDown(history[..i]) && !RecoveryConfirmed(history, i))
  {
    var n := |history| - 1;
    var init := history[..n];
    forall i | i < n
      ensures FailureConfirmed(history, i) <==> FailureConfirmed(init, i)
      ensures RecoveryConfirmed(history, i) <==> RecoveryConfirmed(init, i)
    {
      ConfirmedEarlier(history, i);
    }
    if ConfirmedDown(history) && !FailureConfirmed(history, n) {
      var i :| FailureConfirmed(history, i) && forall j :: i < j < |history| ==> !RecoveryConfirmed(history, j);
      assert FailureConfirmed(init, i);
      assert ConfirmedDown(init);
    }
    if ConfirmedDown(init) && !RecoveryConfirmed(history, n) {
      var i :| FailureConfirmed(init, i) && forall j :: i < j < |init| ==> !RecoveryConfirmed(init, j);
      assert FailureConfirmed(history, i);
    }
  }

  /**
   * The stored state against the history, for thresholds that may change at every check: a monitor is
   * down exactly when its latest confirmed failure is later than its latest confirmed recovery.
   */
  lemma {:induction false} DownIffConfirmed(history: seq<Observation>)
    requires history != [] && SaneThresholds(history)
    ensures After(history).current != Healthy <==> ConfirmedDown(history)
  {
    var n := |history| - 1;
    var init := history[..n];
    DownOneCheckLater(history);
    ConfirmedAtTheEnd(history);
    CountersAreTrailingRuns(history);
    if n == 0 {
      assert !ConfirmedDown(init);
    } else {
      DownIffConfirmed(init);
      CountersAreTrailingRuns(init);
    }
  }

  /** While a monitor is down, the stored state is that of its last failing check. */
  lemma {:induction false} DownStateIsLastFailure(history: seq<Observation>)
    requires history != [] && After(history).current != Healthy
    ensures exists i :: 0 <= i < |history| && Failing(history[i].state) && history[i].state == After(history).current
                        && forall j :: i < j < |history| ==> !Failing(history[j].state)
  {
    var n := |history| - 1;
    var init, last := history[..n], history[n];
    CountersAreTrailingRuns(history);
    if Failing(last.state) {
      assert last.state == After(history).current;
    } else {
      assert n > 0;
      DownStateIsLastFailure(init);
      var i :| 0 <= i < |init| && Failing(init[i].state) && init[i].state == After(init).current
               && forall j :: i < j < |init| ==> !Failing(init[j].state);
      assert history[i] == init[i];
      assert forall j :: i < j < n ==> history[j] == init[j];
    }
  }

  /** The incident statement the last check of a history asks for. */
  function LastAction(history: seq<Observation>): Action
    requires history != []
  {
    var last := history[|history| - 1];
    var before := if |history| == 1 then Fresh(last.at) else After(history[..|history| - 1]);
    Advance(before, last.state, last.at, last.failureThreshold, last.recoveryThreshold).action
  }

  function DownBefore(history: seq<Observation>): bool
    requires history != []
  {
    |history| > 1 && After(history[..|history| - 1]).current != Healthy
  }

  /** When one check asks for an incident statement, for a state row that tallies. */
  lemma ActionOfStep(ms: MonitorState, o: Observation, n: int, started: int)
    requires Tallies(AdvanceBy(ms, o).next, o, n, started)
    requires o.failureThreshold >= 1 && o.recoveryThreshold >= 1 && n >= 1
    requires ms.current != Healthy && o.state == Healthy ==> ms.recoveryStreak + 1 == n
    ensures var action, next := AdvanceBy(ms, o).action, AdvanceBy(ms, o).next;
      && (action.Open? <==> ms.current == Healthy && Failing(o.state) && n >= o.failureThreshold)
      && (action.Open? ==> action.openedAt == next.stateSince == started)
      && (action.Resolve? <==> ms.current != Healthy && o.state == Healthy && n >= o.recoveryThreshold)
      && (action.Change? <==> ms.current != Healthy && Failing(o.state) && o.state != ms.current)
      && (action.Change? ==> action.previous == ms.current)
      && (action.Change? || action.Resolve? ==> next.stateSince == o.at)
      && (action.Nothing? ==> next.stateSince == ms.stateSince)
  {
  }

  /** The state row before the last check of a history, and the run that check ends. */
  lemma LastStepTallies(history: seq<Observation>)
    requires history != []
    ensures var last, n := history[|history| - 1], TrailingRun(history);
      var before := if |history| == 1 then Fresh(last.at) else After(history[..|history| - 1]);
      && 1 <= n <= |history|
      && Tallies(AdvanceBy(before, last).next, last, n, history[|history| - n].at)
      && (before.current != Healthy && last.state == Healthy ==> before.recoveryStreak + 1 == n)
  {
    CountersAreTrailingRuns(history);
    if |history| > 1 {
      CountersAreTrailingRuns(history[..|history| - 1]);
    }
  }

  /**
   * When incidents open, change and resolve, told from the history alone: an incident opens on the check that
   * confirms a failure of an up monitor and is dated to the first failure of that run; it changes on another
   * kind of failure; it resolves on the check that confirms a recovery of a down monitor.
   */
  lemma ActionsFollowHistory(history: seq<Observation>)
    requires history != [] && SaneThresholds(history)
    ensures var n := |history| - 1;
      && 1 <= TrailingRun(history) <= |history|
      && (LastAction(history).Open? <==> !DownBefore(history) && FailureConfirmed(history, n))
      && (LastAction(history).Open? ==> LastAction(history).openedAt == history[|history| - TrailingRun(history)].at)
      && (LastAction(history).Resolve? <==> DownBefore(history) && RecoveryConfirmed(history, n))
      && (LastAction(history).Change? <==>
            DownBefore(history) && Failing(history[n].state) && history[n].state != After(history[..n]).current)
      && (LastAction(history).Change? ==> LastAction(history).previous == After(history[..n]).current)
      && (LastAction(history).Nothing? ==>
            After(history).stateSince == if n > 0 then After(history[..n]).stateSince else history[0].at)
      && (LastAction(history).Open? ==> After(history).stateSince == LastAction(history).openedAt)
      && (LastAction(history).Change? || LastAction(history).Resolve? ==> After(history).stateSince == history[n].at)
  {
    var last, n := history[|history| - 1], TrailingRun(history);
    LastStepTallies(history);
    ConfirmedAtTheEnd(history);
    ActionOfStep(if |history| == 1 then Fresh(last.at) else After(history[..|history| - 1]), last, n,
                 history[|history| - n].at);
  }
}
