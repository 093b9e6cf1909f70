/**
 * Scheduled and manual runs, resets, deletions, pruning and restarts in any interleaving, under a clock that
 * does not go back. Exclusion per monitor makes recorded check times nondecreasing; that makes a monitor's
 * incidents disjoint; that makes the availability figure exact.
 */
module Protocol {
  import opened Rows
  import opened Schema
  import opened Incidents
  import opened HistoryTables
  import opened Invariants
  import opened Chronicle
  import Coordinator
  import Overview

  const SECOND := 1_000_000_000

  /** Unix seconds of a clock that counts nanoseconds. */
  function Unix(t: int): int { t / SECOND }

  /** Where a run is: claimed, inside the provider request that began at startedAt, or recorded. */
  datatype Phase = Claimed | Checking(startedAt: int) | Recorded

  datatype Run = Run(monitor: int, phase: Phase)

  /** The process and its database. The history of a monitor, since its last reset, is kept for the specification. */
  datatype System = System(
    clock: int,
    coordinator: Coordinator.Runs,
    runs: map<nat, Run>,
    tables: Tables,
    history: map<int, seq<Observation>>)

  datatype Step =
    | Tick(now: int)
    | ClaimScheduled(monitor: int, now: int, interval: int, run: nat)
    | ClaimByHand(monitor: int, now: int, run: nat)
    | Request(monitor: int)
    | Begin(run: nat)
    | Record(run: nat, state: State, duration: int, failureThreshold: int, recoveryThreshold: int)
    | RecordPublic(run: nat, state: State, duration: int, at: int)
    | Finish(run: nat)
    | CreateMonitor(monitor: int)
    | DeleteMonitor(monitor: int)
    | ForgetMonitor(monitor: int)
    | ResetMonitor(monitor: int)
    | ResetEverything
    | PruneBefore(cutoff: int)
    | Restart

  ghost predicate Enabled(s: System, step: Step) {
    match step
    case Tick(now) => now >= s.clock
    case ClaimScheduled(_, _, _, run) => run !in s.runs
    case ClaimByHand(_, _, run) => run !in s.runs
    case Begin(run) => run in s.runs && s.runs[run].phase == Claimed
    case Record(run, _, _, failureThreshold, recoveryThreshold) =>
      run in s.runs && s.runs[run].phase.Checking? && failureThreshold >= 1 && recoveryThreshold >= 1
    case RecordPublic(run, _, _, _) => run in s.runs && s.runs[run].phase == Recorded
    case Finish(run) => run in s.runs
    case CreateMonitor(monitor) => monitor !in s.tables.monitors
    case _ => true
  }

  /** A claim of a run, which exists only if the claim is accepted. */
  function Claiming(limit: int, s: System, op: Coordinator.Op, run: nat): System {
    var performed := Coordinator.Perform(limit, s.coordinator, op);
    if performed.result == Coordinator.Accepted
    then s.(coordinator := performed.runs, runs := s.runs[run := Run(op.id, Claimed)])
    else s.(coordinator := performed.runs)
  }

  function Extended(history: map<int, seq<Observation>>, monitor: int, o: Observation): map<int, seq<Observation>> {
    history[monitor := (if monitor in history then history[monitor] else []) + [o]]
  }

  ghost function Recording(
    s: System, run: nat, state: State, duration: int, failureThreshold: int, recoveryThreshold: int): System
    requires run in s.runs && s.runs[run].phase.Checking?
  {
    var monitor, at := s.runs[run].monitor, Unix(s.runs[run].phase.startedAt);
    s.(runs := s.runs[run := Run(monitor, Recorded)],
       tables :=
         RecordCheck(s.tables, monitor, Authenticated, state, duration, at, failureThreshold, recoveryThreshold),
       history := if monitor in s.tables.monitors
                  then Extended(s.history, monitor, Observation(state, at, failureThreshold, recoveryThreshold))
                  else s.history)
  }

  ghost function Do(limit: int, s: System, step: Step): System
    requires Enabled(s, step)
  {
    match step
    case Tick(now) => s.(clock := now)
    case ClaimScheduled(monitor, now, interval, run) =>
      Claiming(limit, s, Coordinator.Claim(monitor, now, interval), run)
    case ClaimByHand(monitor, now, run) => Claiming(limit, s, Coordinator.ClaimManual(monitor, now), run)
    case Request(monitor) =>
      s.(coordinator := Coordinator.Perform(limit, s.coordinator, Coordinator.RequestImmediate(monitor)).runs)
    case Begin(run) => s.(runs := s.runs[run := s.runs[run].(phase := Checking(s.clock))])
    case Record(run, state, duration, failureThreshold, recoveryThreshold) =>
      Recording(s, run, state, duration, failureThreshold, recoveryThreshold)
    case RecordPublic(run, state, duration, at) =>
      s.(tables := RecordCheck(s.tables, s.runs[run].monitor, Public, state, duration, Unix(at), 1, 1))
    case Finish(run) =>
      s.(coordinator := Coordinator.Perform(limit, s.coordinator, Coordinator.Release(s.runs[run].monitor)).runs,
         runs := s.runs - {run})
    case CreateMonitor(monitor) => s.(tables := Create(s.tables, monitor))
    case DeleteMonitor(monitor) => s.(tables := Delete(s.tables, monitor), history := s.history - {monitor})
    case ForgetMonitor(monitor) =>
      s.(coordinator := Coordinator.Perform(limit, s.coordinator, Coordinator.Forget(monitor)).runs)
    case ResetMonitor(monitor) => s.(tables := Reset(s.tables, monitor), history := s.history - {monitor})
    case ResetEverything => s.(tables := ResetAll(s.tables), history := map[])
    case PruneBefore(cutoff) => s.(tables := Prune(s.tables, cutoff))
    case Restart => s.(coordinator := Coordinator.NO_RUNS, runs := map[])
  }

  ghost predicate Initial(s: System) {
    && s.clock >= SECOND
    && s.coordinator == Coordinator.NO_RUNS && s.runs == map[]
    && s.tables == Tables({}, [], map[], map[], []) && s.history == map[]
  }

  /** A run of the system: every state follows from the one before by an enabled step. */
  ghost predicate Behavior(limit: int, states: seq<System>, steps: seq<Step>) {
    && |states| == |steps| + 1
    && Initial(states[0])
    && forall i :: 0 <= i < |steps| ==> Follows(limit, states, steps, i)
  }

  /** The i-th step is enabled and leads to the next state. */
  ghost predicate Follows(limit: int, states: seq<System>, steps: seq<Step>, i: nat)
    requires i < |steps| && |states| == |steps| + 1
  {
    Enabled(states[i], steps[i]) && states[i + 1] == Do(limit, states[i], steps[i])
  }

  // ----- The invariant -----

  /** Every run holds its monitor's slot, and no two runs hold the same one. */
  ghost predicate Exclusive(s: System) {
    && (forall r :: r in s.runs ==> s.runs[r].monitor in s.coordinator.inFlight)
    && (forall q, r :: q in s.runs && r in s.runs && s.runs[q].monitor == s.runs[r].monitor ==> q == r)
  }

  /** Nothing recorded for a monitor is later than the clock, nor than the request in progress. */
  ghost predicate OnTime(s: System) {
    && s.clock >= SECOND
    && (forall m :: NoLater(s.tables, m, Unix(s.clock)))
    && (forall r :: r in s.runs && s.runs[r].phase.Checking? ==>
                      && SECOND <= s.runs[r].phase.startedAt <= s.clock
                      && NoLater(s.tables, s.runs[r].monitor, Unix(s.runs[r].phase.startedAt)))
  }

  ghost predicate NoLater(t: Tables, monitor: int, at: int) {
    LastCheck(t, monitor).Some? ==> LastCheck(t, monitor).value <= at
  }

  /** The stored state of a monitor is what its history since the last reset leads to. */
  ghost predicate Explained(s: System, m: int) {
    if m in s.tables.states then
      && m in s.history && s.history[m] != []
      && s.tables.states[m] == After(s.history[m])
      && SaneThresholds(s.history[m]) && TimesAscend(s.history[m])
    else m !in s.history
  }

  ghost predicate Inv(s: System) {
    && ValidTables(s.tables) && Chronological(s.tables)
    && Exclusive(s) && OnTime(s)
    && forall m :: Explained(s, m)
  }

  // ----- Every step keeps it -----

  /** A step of the process alone: the tables stay, and no request begins. */
  lemma SameTablesKeepInv(s: System, after: System)
    requires Inv(s) && Exclusive(after)
    requires after.tables == s.tables && after.history == s.history && after.clock == s.clock
    requires forall r :: r in after.runs && after.runs[r].phase.Checking? ==> r in s.runs && s.runs[r] == after.runs[r]
    ensures Inv(after)
  {
    forall m
      ensures Explained(after, m) && NoLater(after.tables, m, Unix(after.clock))
    {
      assert Explained(s, m) && NoLater(s.tables, m, Unix(s.clock));
    }
  }

  lemma ClaimKeepsExclusive(limit: int, s: System, op: Coordinator.Op, run: nat)
    requires Exclusive(s) && run !in s.runs && (op.Claim? || op.ClaimManual?)
    ensures Exclusive(Claiming(limit, s, op, run))
  {
  }

  lemma ClaimKeepsInv(limit: int, s: System, op: Coordinator.Op, run: nat)
    requires Inv(s) && run !in s.runs && (op.Claim? || op.ClaimManual?)
    ensures Inv(Claiming(limit, s, op, run))
  {
    ClaimKeepsExclusive(limit, s, op, run);
    SameTablesKeepInv(s, Claiming(limit, s, op, run));
  }

  lemma BeginKeepsInv(s: System, run: nat)
    requires Inv(s) && run in s.runs
    ensures Inv(s.(runs := s.runs[run := s.runs[run].(phase := Checking(s.clock))]))
  {
    var after := s.(runs := s.runs[run := s.runs[run].(phase := Checking(s.clock))]);
    forall m
      ensures Explained(after, m)
    {
      assert Explained(s, m);
    }
    assert NoLater(s.tables, s.runs[run].monitor, Unix(s.clock));
  }

  lemma FinishKeepsInv(limit: int, s: System, run: nat)
    requires Inv(s) && run in s.runs
    ensures Inv(Do(limit, s, Finish(run)))
  {
    SameTablesKeepInv(s, Do(limit, s, Finish(run)));
  }

  /** What one authenticated check leaves in the state rows. */
  lemma RecordedState(
    t: Tables, monitor: int, state: State, duration: int, at: int, failureThreshold: int, recoveryThreshold: int)
    requires monitor in t.monitors
    ensures RecordCheck(t, monitor, Authenticated, state, duration, at, failureThreshold, recoveryThreshold).states ==
            t.states[monitor :=
              Advance(StateBefore(t, monitor, at), state, at, failureThreshold, recoveryThreshold).next]
    ensures Advance(StateBefore(t, monitor, at), state, at, failureThreshold, recoveryThreshold).next.lastCheckAt ==
            Some(at)
  {
  }

  /** A state row advanced by one check is what its history extended by that check leads to. */
  lemma HistoryExtends(h: seq<Observation>, o: Observation)
    ensures After(h + [o]) ==
            AdvanceBy(if h == [] then Fresh(o.at) else After(h), o).next
  {
  }

  lemma HistoryStaysInOrder(h: seq<Observation>, o: Observation)
    requires h != [] ==> SaneThresholds(h) && TimesAscend(h) && h[|h| - 1].at <= o.at
    requires o.failureThreshold >= 1 && o.recoveryThreshold >= 1
    ensures SaneThresholds(h + [o]) && TimesAscend(h + [o])
  {
  }

  lemma RecordKeepsExplained(
    s: System, run: nat, state: State, duration: int, failureThreshold: int, recoveryThreshold: int, m: int)
    requires Inv(s) && run in s.runs && s.runs[run].phase.Checking? && failureThreshold >= 1 && recoveryThreshold >= 1
    ensures Explained(Recording(s, run, state, duration, failureThreshold, recoveryThreshold), m)
  {
    var monitor, at := s.runs[run].monitor, Unix(s.runs[run].phase.startedAt);
    assert Explained(s, m);
    if monitor in s.tables.monitors {
      RecordedState(s.tables, monitor, state, duration, at, failureThreshold, recoveryThreshold);
      if m == monitor {
        var h := if monitor in s.history then s.history[monitor] else [];
        if h != [] {
          CountersAreTrailingRuns(h);
          assert NoLater(s.tables, monitor, at);
        }
        HistoryExtends(h, Observation(state, at, failureThreshold, recoveryThreshold));
        HistoryStaysInOrder(h, Observation(state, at, failureThreshold, recoveryThreshold));
      }
    }
  }

  lemma RecordKeepsOnTime(
    s: System, run: nat, state: State, duration: int, failureThreshold: int, recoveryThreshold: int)
    requires Inv(s) && run in s.runs && s.runs[run].phase.Checking?
    ensures OnTime(Recording(s, run, state, duration, failureThreshold, recoveryThreshold))
  {
    var monitor, at := s.runs[run].monitor, Unix(s.runs[run].phase.startedAt);
    var after := Recording(s, run, state, duration, failureThreshold, recoveryThreshold);
    if monitor in s.tables.monitors {
      RecordedState(s.tables, monitor, state, duration, at, failureThreshold, recoveryThreshold);
    }
    forall m
      ensures NoLater(after.tables, m, Unix(after.clock))
    {
      assert NoLater(s.tables, m, Unix(s.clock));
    }
    forall r | r in after.runs && after.runs[r].phase.Checking?
      ensures NoLater(after.tables, after.runs[r].monitor, Unix(after.runs[r].phase.startedAt))
    {
      assert NoLater(s.tables, s.runs[r].monitor, Unix(s.runs[r].phase.startedAt));
    }
  }

  lemma RecordKeepsInv(s: System, run: nat, state: State, duration: int, failureThreshold: int, recoveryThreshold: int)
    requires Inv(s) && run in s.runs && s.runs[run].phase.Checking? && failureThreshold >= 1 && recoveryThreshold >= 1
    ensures Inv(Recording(s, run, state, duration, failureThreshold, recoveryThreshold))
  {
    var monitor, at := s.runs[run].monitor, Unix(s.runs[run].phase.startedAt);
    assert NoLater(s.tables, monitor, at);
    RecordKeepsValid(s.tables, monitor, Authenticated, state, duration, at, failureThreshold, recoveryThreshold);
    RecordKeepsChronological(
      s.tables, monitor, Authenticated, state, duration, at, failureThreshold, recoveryThreshold);
    RecordKeepsOnTime(s, run, state, duration, failureThreshold, recoveryThreshold);
    forall m
      ensures Explained(Recording(s, run, state, duration, failureThreshold, recoveryThreshold), m)
    {
      RecordKeepsExplained(s, run, state, duration, failureThreshold, recoveryThreshold, m);
    }
  }

  /** Transactions that keep a subset of the state rows, with the histories cut down alike. */
  lemma TablesKeepInv(s: System, t: Tables, history: map<int, seq<Observation>>)
    requires Inv(s) && ValidTables(t) && Chronological(t)
    requires forall m :: m in t.states ==> m in s.tables.states && t.states[m] == s.tables.states[m]
    requires forall m :: m in t.states ==> m in s.history && m in history && history[m] == s.history[m]
    requires forall m :: m !in t.states ==> m !in history
    ensures Inv(s.(tables := t, history := history))
  {
    var after := s.(tables := t, history := history);
    forall m
      ensures Explained(after, m) && NoLater(t, m, Unix(after.clock))
    {
      assert Explained(s, m) && NoLater(s.tables, m, Unix(s.clock));
    }
    forall r | r in after.runs && after.runs[r].phase.Checking?
      ensures NoLater(t, after.runs[r].monitor, Unix(after.runs[r].phase.startedAt))
    {
      assert NoLater(s.tables, s.runs[r].monitor, Unix(s.runs[r].phase.startedAt));
    }
  }

  lemma TransactionKeepsTables(t: Tables, step: Step)
    requires ValidTables(t) && Chronological(t)
    ensures step.CreateMonitor? ==> ValidTables(Create(t, step.monitor)) && Chronological(Create(t, step.monitor))
    ensures step.DeleteMonitor? ==> ValidTables(Delete(t, step.monitor)) && Chronological(Delete(t, step.monitor))
    ensures step.ResetMonitor? ==> ValidTables(Reset(t, step.monitor)) && Chronological(Reset(t, step.monitor))
    ensures step.ResetEverything? ==> ValidTables(ResetAll(t)) && Chronological(ResetAll(t))
    ensures step.PruneBefore? ==> ValidTables(Prune(t, step.cutoff)) && Chronological(Prune(t, step.cutoff))
  {
    match step {
      case CreateMonitor(m) =>
        CreateKeepsValid(t, m);
        CreateKeepsChronological(t, m);
      case DeleteMonitor(m) =>
        ResetKeepsValid(t, m);
        ResetKeepsChronological(t, m);
      case ResetMonitor(m) =>
        ResetKeepsValid(t, m);
        ResetKeepsChronological(t, m);
      case ResetEverything =>
        ResetAllKeepsValid(t);
      case PruneBefore(cutoff) =>
        PruneKeepsValid(t, cutoff);
        PruneKeepsChronological(t, cutoff);
      case _ =>
    }
  }

  lemma TransactionKeepsInv(limit: int, s: System, step: Step)
    requires Inv(s) && Enabled(s, step)
    requires || step.CreateMonitor? || step.DeleteMonitor? || step.ResetMonitor? || step.ResetEverything?
             || step.PruneBefore?
    ensures Inv(Do(limit, s, step))
  {
    forall m
      ensures m in s.tables.states <==> m in s.history
    {
      assert Explained(s, m);
    }
    var after := Do(limit, s, step);
    TransactionKeepsTables(s.tables, step);
    TablesKeepInv(s, after.tables, after.history);
  }

  /** Public checks are stored and change nothing else. */
  lemma PublicKeepsInv(limit: int, s: System, run: nat, state: State, duration: int, at: int)
    requires Inv(s) && Enabled(s, RecordPublic(run, state, duration, at))
    ensures Inv(Do(limit, s, RecordPublic(run, state, duration, at)))
  {
    var monitor := s.runs[run].monitor;
    forall m
      ensures m in s.tables.states <==> m in s.history
    {
      assert Explained(s, m);
    }
    RecordKeepsValid(s.tables, monitor, Public, state, duration, Unix(at), 1, 1);
    RecordKeepsChronological(s.tables, monitor, Public, state, duration, Unix(at), 1, 1);
    TablesKeepInv(s, RecordCheck(s.tables, monitor, Public, state, duration, Unix(at), 1, 1), s.history);
  }

  /** Every step of any run, request, operator or restart keeps the invariant. */
  lemma StepKeepsInv(limit: int, s: System, step: Step)
    requires Inv(s) && Enabled(s, step)
    ensures Inv(Do(limit, s, step))
  {
    match step
    case ClaimScheduled(monitor, now, interval, run) =>
      ClaimKeepsInv(limit, s, Coordinator.Claim(monitor, now, interval), run);
    case ClaimByHand(monitor, now, run) => ClaimKeepsInv(limit, s, Coordinator.ClaimManual(monitor, now), run);
    case Begin(run) => BeginKeepsInv(s, run);
    case Record(run, state, duration, failureThreshold, recoveryThreshold) =>
      RecordKeepsInv(s, run, state, duration, failureThreshold, recoveryThreshold);
    case RecordPublic(run, state, duration, at) => PublicKeepsInv(limit, s, run, state, duration, at);
    case Finish(run) => FinishKeepsInv(limit, s, run);
    case Tick(_) => ProcessKeepsInv(limit, s, step);
    case Request(_) => ProcessKeepsInv(limit, s, step);
    case ForgetMonitor(_) => ProcessKeepsInv(limit, s, step);
    case Restart => ProcessKeepsInv(limit, s, step);
    case _ => TransactionKeepsInv(limit, s, step);
  }

  lemma ProcessKeepsInv(limit: int, s: System, step: Step)
    requires Inv(s) && Enabled(s, step)
    requires step.Tick? || step.Request? || step.ForgetMonitor? || step.Restart?
    ensures Inv(Do(limit, s, step))
  {
    if step.Tick? {
      var after := Do(limit, s, step);
      forall m
        ensures Explained(after, m) && NoLater(after.tables, m, Unix(after.clock))
      {
        assert Explained(s, m) && NoLater(s.tables, m, Unix(s.clock));
      }
    } else {
      SameTablesKeepInv(s, Do(limit, s, step));
    }
  }

  lemma {:induction false} AlwaysInv(limit: int, states: seq<System>, steps: seq<Step>, k: nat)
    requires Behavior(limit, states, steps) && k < |states|
    ensures Inv(states[k])
  {
    if k == 0 {
      forall m
        ensures OneOpenOf(states[0].tables.states, states[0].tables.incidents, m)
      {
      }
    } else {
      AlwaysInv(limit, states, steps, k - 1);
      assert Follows(limit, states, steps, k - 1);
      StepKeepsInv(limit, states[k - 1], steps[k - 1]);
    }
  }

  // ----- The incidents of every reachable state -----

  function HistoryOf(s: System, m: int): seq<Observation> {
    if m in s.history then s.history[m] else []
  }

  /** The stored incidents of a monitor are exactly those its history gives rise to. */
  ghost predicate Chronicled(s: System, m: int) {
    Accounts(s.tables.incidents, m, IncidentsFrom(m, HistoryOf(s, m)))
  }

  lemma ExplainedTraces(s: System, m: int)
    requires Explained(s, m)
    ensures Traces(s.tables, m, HistoryOf(s, m))
    ensures SaneThresholds(HistoryOf(s, m)) && TimesAscend(HistoryOf(s, m))
  {
  }

  lemma RecordKeepsChronicled(
    s: System, run: nat, state: State, duration: int, failureThreshold: int, recoveryThreshold: int, m: int)
    requires run in s.runs && s.runs[run].phase.Checking? && failureThreshold >= 1 && recoveryThreshold >= 1
    requires OneOpen(s.tables) && Explained(s, s.runs[run].monitor) && Explained(s, m) && Chronicled(s, m)
    ensures Chronicled(Recording(s, run, state, duration, failureThreshold, recoveryThreshold), m)
  {
    var monitor, at := s.runs[run].monitor, Unix(s.runs[run].phase.startedAt);
    ExplainedTraces(s, m);
    ExplainedTraces(s, monitor);
    if monitor in s.tables.monitors {
      RecordKeepsAccounts(s.tables, monitor, HistoryOf(s, monitor),
                          Observation(state, at, failureThreshold, recoveryThreshold), duration, m, HistoryOf(s, m));
    }
  }

  lemma ClearingKeepsChronicled(s: System, monitor: int, m: int)
    requires Explained(s, m) && Chronicled(s, m)
    ensures Chronicled(s.(tables := Reset(s.tables, monitor), history := s.history - {monitor}), m)
    ensures Chronicled(s.(tables := Delete(s.tables, monitor), history := s.history - {monitor}), m)
  {
    ExplainedTraces(s, m);
    ResetKeepsAccounts(s.tables, monitor, m, HistoryOf(s, m));
  }

  lemma StepKeepsChronicled(limit: int, s: System, step: Step, m: int)
    requires OneOpen(s.tables) && (forall x :: Explained(s, x)) && Enabled(s, step) && Chronicled(s, m)
    ensures Chronicled(Do(limit, s, step), m)
  {
    match step
    case Record(run, state, duration, failureThreshold, recoveryThreshold) =>
      RecordKeepsChronicled(s, run, state, duration, failureThreshold, recoveryThreshold, m);
    case DeleteMonitor(monitor) => ClearingKeepsChronicled(s, monitor, m);
    case ResetMonitor(monitor) => ClearingKeepsChronicled(s, monitor, m);
    case ResetEverything => NoneAccounts(map[], m);
    case _ =>
  }

  /** In every reachable state, each monitor's incidents are exactly those its history gives rise to. */
  lemma {:induction false} IncidentsFollowHistory(limit: int, states: seq<System>, steps: seq<Step>, k: nat, m: int)
    requires Behavior(limit, states, steps) && k < |states|
    ensures Chronicled(states[k], m)
  {
    if k == 0 {
      NoneAccounts(map[], m);
    } else {
      AlwaysInv(limit, states, steps, k - 1);
      IncidentsFollowHistory(limit, states, steps, k - 1, m);
      assert Follows(limit, states, steps, k - 1);
      StepKeepsChronicled(limit, states[k - 1], steps[k - 1], m);
    }
  }

  lemma HistoryIsSane(limit: int, states: seq<System>, steps: seq<Step>, k: nat, m: int)
    requires Behavior(limit, states, steps) && k < |states|
    ensures SaneThresholds(HistoryOf(states[k], m)) && TimesAscend(HistoryOf(states[k], m))
  {
    AlwaysInv(limit, states, steps, k);
    assert Explained(states[k], m);
  }

  /**
   * In every reachable state every incident was opened by a check j that confirmed a failure of its monitor
   * while it was up. It is dated to the first failure of the run j confirmed, and ended by the first confirmed
   * recovery after j.
   */
  lemma EveryIncidentIsTold(limit: int, states: seq<System>, steps: seq<Step>, k: nat, i: int) returns (j: int)
    requires Behavior(limit, states, steps) && k < |states| && i in states[k].tables.incidents
    ensures var x := states[k].tables.incidents[i];
      var h := HistoryOf(states[k], x.monitor);
      Opening(h, j) && Tells(x, h, j)
  {
    var incidents := states[k].tables.incidents;
    var m := incidents[i].monitor;
    var h := HistoryOf(states[k], m);
    IncidentsFollowHistory(limit, states, steps, k, m);
    HistoryIsSane(limit, states, steps, k, m);
    AsManyAsOpenings(m, h);
    var ids :| StoredAs(incidents, m, IncidentsFrom(m, h), ids);
    var p :| 0 <= p < |ids| && ids[p] == i;
    IncidentTold(m, h, p);
    j := Openings(h)[p];
    OpeningsComplete(h, j);
  }

  /** And every such check opened one: no confirmed failure goes without its incident. */
  lemma EveryOpeningHasItsIncident(limit: int, states: seq<System>, steps: seq<Step>, k: nat, m: int, j: int)
    returns (i: int)
    requires Behavior(limit, states, steps) && k < |states| && Opening(HistoryOf(states[k], m), j)
    ensures i in states[k].tables.incidents && states[k].tables.incidents[i].monitor == m
    ensures Tells(states[k].tables.incidents[i], HistoryOf(states[k], m), j)
  {
    var incidents := states[k].tables.incidents;
    var h := HistoryOf(states[k], m);
    IncidentsFollowHistory(limit, states, steps, k, m);
    HistoryIsSane(limit, states, steps, k, m);
    AsManyAsOpenings(m, h);
    LastIsOpenWhileDown(m, h);
    OpeningsComplete(h, j);
    var ids :| StoredAs(incidents, m, IncidentsFrom(m, h), ids);
    var p :| 0 <= p < |Openings(h)| && Openings(h)[p] == j;
    IncidentTold(m, h, p);
    i := ids[p];
  }

  /** In every reachable state the seconds some incident of a monitor covers are those its history has it down. */
  lemma DownSecondsFollowHistory(limit: int, states: seq<System>, steps: seq<Step>, k: nat, m: int, t: int)
    requires Behavior(limit, states, steps) && k < |states|
    ensures Overview.DownAt(states[k].tables.incidents, m, t) <==> OutageAt(HistoryOf(states[k], m), t)
  {
    IncidentsFollowHistory(limit, states, steps, k, m);
    HistoryIsSane(limit, states, steps, k, m);
    CoveredIffOutage(states[k].tables.incidents, m, HistoryOf(states[k], m), t);
  }

  // ----- What follows for every interleaving -----

  /** No monitor is ever checked by two runs at once. */
  lemma OneRunPerMonitor(limit: int, states: seq<System>, steps: seq<Step>, k: nat, q: nat, r: nat)
    requires Behavior(limit, states, steps) && k < |states|
    requires q in states[k].runs && r in states[k].runs && states[k].runs[q].monitor == states[k].runs[r].monitor
    ensures q == r
  {
    AlwaysInv(limit, states, steps, k);
  }

  /** The checks recorded for a monitor since its last reset are in time order, whatever runs recorded them. */
  lemma RecordedInOrder(limit: int, states: seq<System>, steps: seq<Step>, k: nat, m: int)
    requires Behavior(limit, states, steps) && k < |states| && m in states[k].history
    ensures TimesAscend(states[k].history[m])
    ensures m in states[k].tables.states && states[k].history[m] != []
    ensures states[k].tables.states[m] == After(states[k].history[m])
  {
    AlwaysInv(limit, states, steps, k);
    assert Explained(states[k], m);
  }

  /** In every reachable state a monitor is down exactly when its history confirms it. */
  lemma DownIffHistoryConfirms(limit: int, states: seq<System>, steps: seq<Step>, k: nat, m: int)
    requires Behavior(limit, states, steps) && k < |states| && m in states[k].history
    ensures m in states[k].tables.states
    ensures states[k].tables.states[m].current != Healthy <==> ConfirmedDown(states[k].history[m])
  {
    AlwaysInv(limit, states, steps, k);
    assert Explained(states[k], m);
    DownIffConfirmed(states[k].history[m]);
  }

  /** In every reachable state no second belongs to two incidents of one monitor. */
  lemma IncidentsNeverOverlap(limit: int, states: seq<System>, steps: seq<Step>, k: nat, i: int, j: int, t: int)
    requires Behavior(limit, states, steps) && k < |states| && i != j
    requires i in states[k].tables.incidents && j in states[k].tables.incidents
    requires states[k].tables.incidents[i].monitor == states[k].tables.incidents[j].monitor
    ensures !(Covers(PeriodOf(states[k].tables.incidents[i]), t) && Covers(PeriodOf(states[k].tables.incidents[j]), t))
  {
    AlwaysInv(limit, states, steps, k);
    var monitor := states[k].tables.incidents[i].monitor;
    Overview.ChronologicalInSuccession(states[k].tables, monitor);
    Overview.IncidentsDisjoint(states[k].tables.incidents, monitor, i, j, t);
  }

  /**
   * The availability figure is exact in every reachable state: for any listing of a monitor's incidents by
   * the overview, the downtime it sums is the number of observed seconds some incident covers, which is the
   * number of seconds the monitor's recorded checks have it down, and the cap never applies.
   */
  lemma AvailabilityExact(
    limit: int, states: seq<System>, steps: seq<Step>, k: nat, monitor: int, now: int, cutoff: int, observedStart: int,
    periods: seq<Overview.IncidentPeriod>, ids: seq<int>, selected: set<int>)
    requires Behavior(limit, states, steps) && k < |states|
    requires cutoff <= observedStart <= now
    requires forall i :: i in selected <==>
                           && i in states[k].tables.incidents
                           && Overview.Listed(states[k].tables.incidents[i], monitor, now, cutoff, observedStart)
    requires Overview.Lists(periods, ids, states[k].tables.incidents, selected)
    ensures Overview.InSuccession(states[k].tables.incidents, monitor)
    ensures Overview.Downtime(periods, observedStart, now) ==
            Overview.DownSeconds(states[k].tables.incidents, monitor, observedStart, now) <= now - observedStart
    ensures Overview.Downtime(periods, observedStart, now) ==
            OutageSeconds(HistoryOf(states[k], monitor), observedStart, now)
  {
    IncidentsFollowHistory(limit, states, steps, k, monitor);
    HistoryIsSane(limit, states, steps, k, monitor);
    DownSecondsAreOutage(states[k].tables.incidents, monitor, HistoryOf(states[k], monitor), observedStart, now);
    AlwaysInv(limit, states, steps, k);
    var incidents := states[k].tables.incidents;
    Overview.ChronologicalInSuccession(states[k].tables, monitor);
    Overview.ListedDisjoint(periods, ids, incidents, monitor, selected);
    Overview.ListedCoverAll(periods, ids, incidents, monitor, selected, now, cutoff, observedStart, now);
    Overview.DowntimeIsSeconds(periods, observedStart, now);
  }
}
