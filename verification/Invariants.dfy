/** Every transaction on the history tables keeps their invariants. */
module Invariants {
  import opened Rows
  import opened Schema
  import opened Incidents
  import opened HistoryTables

  // ----- Event logs -----

  lemma ReplaySnoc(log: seq<Event>, e: Event)
    requires Replay(log).Some? && Replay(log).value.resolvedAt == None
    ensures e.kind == Recovered && e.newState == Healthy
            ==> Replay(log + [e]) == Some(Replay(log).value.(resolvedAt := Some(e.createdAt)))
    ensures e.kind == StateChanged(Replay(log).value.latest)
            && e.newState != Replay(log).value.latest && Failing(e.newState)
            ==> Replay(log + [e]) == Some(Replay(log).value.(latest := e.newState))
  {
  }

  /** Event b may follow event a: nothing follows a recovery, and a change starts from the state a reached. */
  predicate Chained(a: Event, b: Event) {
    && a.kind != Recovered
    && match b.kind
       case Opened => false
       case StateChanged(previous) => previous == a.newState && b.newState != previous && Failing(b.newState)
       case Recovered => b.newState == Healthy
  }

  /**
   * A log as the design describes it: one opening, chained changes of failing states, an optional recovery at
   * the end.
   */
  ghost predicate WellFormed(log: seq<Event>) {
    && log != []
    && log[0].kind == Opened && Failing(log[0].newState)
    && forall i, j :: 0 <= i && j == i + 1 < |log| ==> Chained(log[i], log[j])
  }

  function StoryOf(log: seq<Event>): Story
    requires log != []
  {
    var last := log[|log| - 1];
    if last.kind == Recovered && |log| > 1
    then Story(log[0].newState, log[|log| - 2].newState, log[0].createdAt, Some(last.createdAt))
    else Story(log[0].newState, last.newState, log[0].createdAt, None)
  }

  /** Replaying succeeds exactly on well-formed logs, and reads off their first and last states and their end. */
  lemma {:induction false} ReplayIffWellFormed(log: seq<Event>)
    ensures Replay(log).Some? <==> WellFormed(log)
    ensures WellFormed(log) ==> Replay(log) == Some(StoryOf(log))
  {
    if |log| > 1 {
      var n := |log| - 1;
      var init := log[..n];
      ReplayIffWellFormed(init);
      WellFormedSnoc(log);
      assert log[n - 1] == init[n - 1];
    }
  }

  lemma WellFormedSnoc(log: seq<Event>)
    requires |log| > 1
    ensures var n := |log| - 1;
      WellFormed(log) <==> WellFormed(log[..n]) && Chained(log[n - 1], log[n])
  {
  }

  lemma NoTimeline(t: Tables, incident: int)
    requires References(t) && incident !in t.incidents
    ensures Timeline(t.events, incident) == []
  {
    KeepNone(t.events, OfIncident(incident));
  }

  // ----- One recorded check -----

  lemma FreshCheckId(checks: seq<Check>, c: Check)
    requires IdsAscend(checks) && c.id == NextCheckId(checks)
    ensures IdsAscend(checks + [c])
  {
  }

  lemma HasCheckGrows(checks: seq<Check>, c: Check, id: int, monitor: int)
    requires HasCheck(checks, id, monitor) || (id == c.id && monitor == c.monitor)
    ensures HasCheck(checks + [c], id, monitor)
  {
  }

  lemma InsertCheckKeepsValid(t: Tables, c: Check)
    requires ValidTables(t) && c.monitor in t.monitors && c.id == NextCheckId(t.checks)
    ensures ValidTables(t.(checks := t.checks + [c]))
    ensures HasCheck(t.checks + [c], c.id, c.monitor)
  {
    FreshCheckId(t.checks, c);
    HasCheckGrows(t.checks, c, c.id, c.monitor);
    forall e | e in t.events && e.check.Some?
      ensures HasCheck(t.checks + [c], e.check.value, t.incidents[e.incident].monitor)
    {
      HasCheckGrows(t.checks, c, e.check.value, t.incidents[e.incident].monitor);
    }
  }

  /** While a monitor is down, the lookup for its open incident finds the only one, with its state. */
  lemma OpenIncidentFound(states: map<int, MonitorState>, incidents: map<int, Incident>, monitor: int)
    requires OneOpenOf(states, incidents, monitor)
    requires monitor in states && states[monitor].current != Healthy
    ensures LatestOpen(incidents, monitor).Some?
    ensures var i := LatestOpen(incidents, monitor).value;
      OnlyOpen(incidents, monitor, i) && incidents[i].latest == states[monitor].current
  {
    var i :| OnlyOpen(incidents, monitor, i) && incidents[i].latest == states[monitor].current;
    assert IsLatestOpen(incidents, monitor, i);
  }

  /** What the state machine promises about the incident statements it asks for. */
  ghost predicate Fits(before: State, state: State, step: Transition) {
    match step.action
    case Nothing => step.next.current == before
    case Open(_) => before == Healthy && Failing(state) && step.next.current == state
    case Change(previous) =>
      before == previous != Healthy && state != previous && Failing(state) && step.next.current == state
    case Resolve => before != Healthy && state == Healthy && step.next.current == Healthy
  }

  lemma AdvanceFits(ms: MonitorState, state: State, at: int, failureThreshold: int, recoveryThreshold: int)
    ensures Fits(ms.current, state, Advance(ms, state, at, failureThreshold, recoveryThreshold))
  {
  }

  function CurrentOf(states: map<int, MonitorState>, monitor: int): State {
    if monitor in states then states[monitor].current else Healthy
  }

  /** Changing or adding one incident row and logging an event of it keeps every reference. */
  lemma EventKeepsReferences(t: Tables, after: Tables, i: int, e: Event, monitor: int)
    requires References(t) && monitor in t.monitors && e.check.Some? && HasCheck(t.checks, e.check.value, monitor)
    requires after.monitors == t.monitors && after.checks == t.checks
    requires monitor in after.states && after.states == t.states[monitor := after.states[monitor]]
    requires i in after.incidents && after.incidents == t.incidents[i := after.incidents[i]]
    requires after.incidents[i].monitor == monitor && (i in t.incidents ==> t.incidents[i].monitor == monitor)
    requires e.incident == i && after.events == t.events + [e]
    ensures References(after)
  {
    forall d | d in after.events
      ensures d.incident in after.incidents
      ensures d.check.Some? ==> HasCheck(after.checks, d.check.value, after.incidents[d.incident].monitor)
    {
      if d !in t.events {
        assert d == e;
      }
    }
  }

  lemma ApplyKeepsReferences(t: Tables, monitor: int, step: Transition, state: State, at: int, checkId: int)
    requires References(t) && monitor in t.monitors && HasCheck(t.checks, checkId, monitor)
    ensures References(Apply(t, monitor, step.action, state, at, checkId).(states := t.states[monitor := step.next]))
  {
    var after := Apply(t, monitor, step.action, state, at, checkId).(states := t.states[monitor := step.next]);
    if after.events != t.events {
      var e := after.events[|t.events|];
      EventKeepsReferences(t, after, e.incident, e, monitor);
    }
  }

  lemma ApplyKeepsOneOpen(t: Tables, monitor: int, step: Transition, state: State, at: int, checkId: int)
    requires OneOpen(t) && Fits(CurrentOf(t.states, monitor), state, step)
    ensures OneOpen(Apply(t, monitor, step.action, state, at, checkId).(states := t.states[monitor := step.next]))
  {
    var incidents := Apply(t, monitor, step.action, state, at, checkId).incidents;
    var states := t.states[monitor := step.next];
    forall m
      ensures OneOpenOf(states, incidents, m)
    {
      assert OneOpenOf(t.states, t.incidents, m);
      if m != monitor {
        OthersKeepTheirIncidents(t, monitor, step.action, state, at, checkId, m);
      } else {
        OwnMonitorKeepsOneOpen(t, m, step, state, at, checkId);
      }
    }
  }

  lemma OthersKeepTheirIncidents(
    t: Tables, monitor: int, action: Action, state: State, at: int, checkId: int, other: int)
    requires other != monitor
    ensures var incidents := Apply(t, monitor, action, state, at, checkId).incidents;
      forall i :: OpenFor(incidents, other, i) == OpenFor(t.incidents, other, i)
                  && (OpenFor(incidents, other, i) ==> incidents[i] == t.incidents[i])
  {
  }

  lemma OwnMonitorKeepsOneOpen(t: Tables, monitor: int, step: Transition, state: State, at: int, checkId: int)
    requires OneOpenOf(t.states, t.incidents, monitor) && Fits(CurrentOf(t.states, monitor), state, step)
    ensures OneOpenOf(t.states[monitor := step.next],
                      Apply(t, monitor, step.action, state, at, checkId).incidents, monitor)
  {
    var incidents := Apply(t, monitor, step.action, state, at, checkId).incidents;
    if CurrentOf(t.states, monitor) != Healthy {
      OpenIncidentFound(t.states, t.incidents, monitor);
      var i := LatestOpen(t.incidents, monitor).value;
      forall j
        ensures OpenFor(incidents, monitor, j) <==> OpenFor(t.incidents, monitor, j) && !step.action.Resolve?
      {
        assert OpenFor(t.incidents, monitor, j) ==> j == i;
      }
      assert !step.action.Resolve? ==> OnlyOpen(incidents, monitor, i);
    } else if step.action.Open? {
      var id := NextIncidentId(t.incidents);
      forall j
        ensures OpenFor(incidents, monitor, j) <==> j == id
      {
        assert !OpenFor(t.incidents, monitor, j);
      }
      assert OnlyOpen(incidents, monitor, id);
    }
  }

  lemma ApplyKeepsLogs(t: Tables, monitor: int, step: Transition, state: State, at: int, checkId: int)
    requires ValidTables(t) && Fits(CurrentOf(t.states, monitor), state, step)
    ensures LogsReplay(Apply(t, monitor, step.action, state, at, checkId))
  {
    var after := Apply(t, monitor, step.action, state, at, checkId);
    if step.action.Open? {
      var id := NextIncidentId(t.incidents);
      NoTimeline(t, id);
      LogGrows(t, after, id, after.events[|t.events|]);
    } else if step.action != Nothing {
      assert OneOpenOf(t.states, t.incidents, monitor);
      OpenIncidentFound(t.states, t.incidents, monitor);
      var i := LatestOpen(t.incidents, monitor).value;
      ReplaySnoc(Timeline(t.events, i), after.events[|t.events|]);
      LogGrows(t, after, i, after.events[|t.events|]);
    }
  }

  lemma LogGrows(t: Tables, after: Tables, i: int, e: Event)
    requires LogsReplay(t) && e.incident == i
    requires after.events == t.events + [e]
    requires i in after.incidents && after.incidents == t.incidents[i := after.incidents[i]]
    requires Replay(Timeline(t.events, i) + [e]) == Some(Told(after.incidents[i]))
    ensures LogsReplay(after)
  {
  }

  lemma RecordKeepsValid(
    t: Tables, monitor: int, source: Source, state: State, duration: int, at: int, failureThreshold: int,
    recoveryThreshold: int)
    requires ValidTables(t)
    ensures ValidTables(RecordCheck(t, monitor, source, state, duration, at, failureThreshold, recoveryThreshold))
  {
    if monitor in t.monitors {
      var check := Check(NextCheckId(t.checks), monitor, source, state, duration, at);
      var inserted := t.(checks := t.checks + [check]);
      InsertCheckKeepsValid(t, check);
      if source == Authenticated {
        var step := Advance(StateBefore(t, monitor, at), state, at, failureThreshold, recoveryThreshold);
        AdvanceFits(StateBefore(t, monitor, at), state, at, failureThreshold, recoveryThreshold);
        ApplyKeepsReferences(inserted, monitor, step, state, at, check.id);
        ApplyKeepsOneOpen(inserted, monitor, step, state, at, check.id);
        ApplyKeepsLogs(inserted, monitor, step, state, at, check.id);
      }
    }
  }

  // ----- Retention -----

  lemma KeepsCheck(checks: seq<Check>, p: Check -> bool, c: Check)
    requires c in checks && p(c)
    ensures HasCheck(Keep(checks, p), c.id, c.monitor)
  {
    KeepMember(checks, p, c);
  }

  lemma KeepSubset<T>(rows: seq<T>, p: T -> bool)
    ensures forall x :: x in Keep(rows, p) ==> x in rows && p(x)
  {
  }

  lemma {:induction false} ClearedTimeline(events: seq<Event>, ids: set<int>, incident: int)
    ensures Timeline(ClearedAll(events, ids), incident) == ClearedAll(Timeline(events, incident), ids)
  {
    if events != [] {
      var init, last := events[..|events| - 1], events[|events| - 1];
      ClearedTimeline(init, ids, incident);
      assert ClearedAll(events, ids)[..|events| - 1] == ClearedAll(init, ids);
      assert ClearedAll(Timeline(init, incident) + [last], ids) ==
             ClearedAll(Timeline(init, incident), ids) + [Cleared(last, ids)];
    }
  }

  /** Clearing check references leaves the story of a log unchanged. */
  lemma {:induction false} ClearedReplay(log: seq<Event>, ids: set<int>)
    ensures Replay(ClearedAll(log, ids)) == Replay(log)
  {
    if |log| > 1 {
      ClearedReplay(log[..|log| - 1], ids);
      assert ClearedAll(log, ids)[..|log| - 1] == ClearedAll(log[..|log| - 1], ids);
    }
  }

  lemma PruneKeepsValid(t: Tables, cutoff: int)
    requires ValidTables(t)
    ensures ValidTables(Prune(t, cutoff))
  {
    var after, gone := Prune(t, cutoff), Expired(t.checks, cutoff);
    KeepAscends(t.checks, Since(cutoff));
    KeepSubset(t.checks, Since(cutoff));
    forall e | e in after.events
      ensures e.incident in after.incidents
      ensures e.check.Some? ==> HasCheck(after.checks, e.check.value, after.incidents[e.incident].monitor)
    {
      var k :| 0 <= k < |t.events| && e == Cleared(t.events[k], gone);
      assert t.events[k] in t.events;
      if e.check.Some? {
        var c :| c in t.checks && c.id == e.check.value && c.monitor == t.incidents[e.incident].monitor;
        KeepsCheck(t.checks, Since(cutoff), c);
      }
    }
    forall i | i in after.incidents
      ensures Replay(Timeline(after.events, i)) == Some(Told(after.incidents[i]))
    {
      ClearedTimeline(t.events, gone, i);
      ClearedReplay(Timeline(t.events, i), gone);
    }
    forall m
      ensures OneOpenOf(after.states, after.incidents, m)
    {
      assert OneOpenOf(t.states, t.incidents, m);
    }
  }

  /** The checks from the cutoff on stay, and an event keeps its reference exactly while its check is stored. */
  ghost predicate PrunedTo(before: Tables, after: Tables, cutoff: int) {
    && (forall c :: c in after.checks <==> c in before.checks && c.checkedAt >= cutoff)
    && |after.events| == |before.events|
    && (forall k :: 0 <= k < |after.events| ==>
          var e := before.events[k];
          after.events[k] == if e.check.Some? && Stored(after.checks, e.check.value) then e else e.(check := None))
    && after.monitors == before.monitors && after.states == before.states && after.incidents == before.incidents
  }

  lemma PruneIsExact(t: Tables, cutoff: int)
    requires References(t)
    ensures PrunedTo(t, Prune(t, cutoff), cutoff)
  {
    var after, gone := Prune(t, cutoff), Expired(t.checks, cutoff);
    forall c
      ensures c in after.checks <==> c in t.checks && c.checkedAt >= cutoff
    {
      KeepMember(t.checks, Since(cutoff), c);
    }
    forall k | 0 <= k < |t.events| && t.events[k].check.Some?
      ensures t.events[k].check.value in gone <==> !Stored(after.checks, t.events[k].check.value)
    {
      var id := t.events[k].check.value;
      assert t.events[k] in t.events && HasCheck(t.checks, id, t.incidents[t.events[k].incident].monitor);
      var c :| c in t.checks && c.id == id;
      IdNamesOne(t.checks, c);
    }
  }

  lemma IdNamesOne(checks: seq<Check>, c: Check)
    requires IdsAscend(checks) && c in checks
    ensures forall d :: d in checks && d.id == c.id ==> d == c
  {
    forall d | d in checks && d.id == c.id
      ensures d == c
    {
      var i :| 0 <= i < |checks| && checks[i] == c;
      var j :| 0 <= j < |checks| && checks[j] == d;
    }
  }

  // ----- Resets and deletion -----

  lemma ResetKeepsReferences(t: Tables, monitor: int)
    requires References(t)
    ensures References(Reset(t, monitor))
    ensures References(Delete(t, monitor))
  {
    var after, ids := Reset(t, monitor), IncidentsOf(t.incidents, monitor);
    KeepAscends(t.checks, NotOf(monitor));
    KeepSubset(t.checks, NotOf(monitor));
    KeepSubset(t.events, NotOfIncidents(ids));
    forall e | e in after.events && e.check.Some?
      ensures HasCheck(after.checks, e.check.value, after.incidents[e.incident].monitor)
    {
      var c :| c in t.checks && c.id == e.check.value && c.monitor == t.incidents[e.incident].monitor;
      KeepsCheck(t.checks, NotOf(monitor), c);
    }
  }

  lemma ResetKeepsLogs(t: Tables, monitor: int)
    requires LogsReplay(t)
    ensures LogsReplay(Reset(t, monitor))
  {
    var ids := IncidentsOf(t.incidents, monitor);
    var after := Reset(t, monitor);
    forall i | i in after.incidents
      ensures Replay(Timeline(after.events, i)) == Some(Told(after.incidents[i]))
    {
      KeepKeep(t.events, NotOfIncidents(ids), OfIncident(i));
      KeepSame(t.events, Both(NotOfIncidents(ids), OfIncident(i)), OfIncident(i));
    }
  }

  lemma ResetKeepsValid(t: Tables, monitor: int)
    requires ValidTables(t)
    ensures ValidTables(Reset(t, monitor)) && ValidTables(Delete(t, monitor))
  {
    ResetKeepsReferences(t, monitor);
    ResetKeepsLogs(t, monitor);
    var after := Reset(t, monitor);
    forall m
      ensures OneOpenOf(after.states, after.incidents, m)
    {
      assert OneOpenOf(t.states, t.incidents, m);
      forall i
        ensures OpenFor(after.incidents, m, i) <==> OpenFor(t.incidents, m, i) && m != monitor
      {
      }
      if m != monitor && CurrentOf(t.states, m) != Healthy {
        var i :| OnlyOpen(t.incidents, m, i) && t.incidents[i].latest == t.states[m].current;
        assert OnlyOpen(after.incidents, m, i);
      }
    }
  }

  /**
   * Nothing of the monitor is left, and everything of every other monitor is as it was: its checks, its state
   * row, its incidents and the log of each of them.
   */
  ghost predicate Separated(before: Tables, after: Tables, monitor: int) {
    && (forall c :: c in after.checks <==> c in before.checks && c.monitor != monitor)
    && (forall m :: m in after.states <==> m in before.states && m != monitor)
    && (forall m :: m in after.states ==> after.states[m] == before.states[m])
    && (forall i :: i in after.incidents <==> i in before.incidents && before.incidents[i].monitor != monitor)
    && (forall i :: i in after.incidents ==> after.incidents[i] == before.incidents[i])
    && (forall e :: e in after.events ==> e.incident in after.incidents)
    && (forall i :: i in after.incidents ==> Timeline(after.events, i) == Timeline(before.events, i))
  }

  lemma ResetSeparates(t: Tables, monitor: int)
    requires References(t)
    ensures Separated(t, Reset(t, monitor), monitor)
  {
    var after, ids := Reset(t, monitor), IncidentsOf(t.incidents, monitor);
    forall c
      ensures c in after.checks <==> c in t.checks && c.monitor != monitor
    {
      KeepMember(t.checks, NotOf(monitor), c);
    }
    KeepSubset(t.events, NotOfIncidents(ids));
    forall i | i in after.incidents
      ensures Timeline(after.events, i) == Timeline(t.events, i)
    {
      KeepKeep(t.events, NotOfIncidents(ids), OfIncident(i));
      KeepSame(t.events, Both(NotOfIncidents(ids), OfIncident(i)), OfIncident(i));
    }
  }

  /** Resetting everything leaves only the monitors, whatever the tables held. */
  lemma ResetAllKeepsValid(t: Tables)
    ensures ValidTables(ResetAll(t)) && Chronological(ResetAll(t))
  {
  }

  lemma CreateKeepsValid(t: Tables, monitor: int)
    requires ValidTables(t)
    ensures ValidTables(Create(t, monitor))
  {
  }

  // ----- Chronology -----

  /** What the state machine promises about times. */
  ghost predicate Timely(ms: MonitorState, state: State, at: int, step: Transition) {
    && StateChronological(step.next)
    && step.next.lastCheckAt == Some(at)
    && step.next.lastRaw == state
    && (Failing(state) ==>
          || step.next.failureStartedAt == at
          || (Failing(ms.lastRaw) && step.next.failureStartedAt == ms.failureStartedAt))
    && (step.action.Open? ==> step.action.openedAt == step.next.failureStartedAt)
  }

  lemma AdvanceTimely(ms: MonitorState, state: State, at: int, failureThreshold: int, recoveryThreshold: int)
    requires at > 0
    requires Failing(ms.lastRaw) ==> 0 < ms.failureStartedAt <= at
    ensures Timely(ms, state, at, Advance(ms, state, at, failureThreshold, recoveryThreshold))
  {
  }

  /** A failure streak of a healthy monitor starts after every earlier incident was resolved. */
  lemma StreakFollowsIncidents(
    t: Tables, monitor: int, ms: MonitorState, state: State, at: int, step: Transition, i: int)
    requires ValidTables(t) && Chronological(t) && InOrder(t, monitor, at)
    requires ms == StateBefore(t, monitor, at) && ms.current == Healthy && Failing(state)
    requires Timely(ms, state, at, step)
    requires i in t.incidents && t.incidents[i].monitor == monitor
    ensures ResolvedBy(t.incidents[i], step.next.failureStartedAt)
  {
    assert OneOpenOf(t.states, t.incidents, monitor);
    assert !OpenFor(t.incidents, monitor, i);
    assert IncidentChronological(t.incidents[i], LastCheck(t, monitor));
  }

  /** A new incident x of a monitor whose incidents were all resolved by the time it opens. */
  lemma AddedKeepsChronological(t: Tables, after: Tables, x: Incident, monitor: int, id: int, at: int)
    requires Chronological(t) && InOrder(t, monitor, at)
    requires (forall i :: i in t.incidents ==> i < id) && after.incidents == t.incidents[id := x]
    requires x.monitor == monitor && x.resolvedAt == None && 0 < x.openedAt <= x.detectedAt <= at
    requires forall i :: i in t.incidents && t.incidents[i].monitor == monitor ==>
               ResolvedBy(t.incidents[i], x.openedAt)
    requires monitor in after.states && after.states == t.states[monitor := after.states[monitor]]
    requires StateChronological(after.states[monitor]) && after.states[monitor].lastCheckAt == Some(at)
    requires !RunningTowardsOpening(after, monitor)
    ensures Chronological(after)
  {
    OthersStayChronological(t, after, monitor, at);
    forall i, j | i in after.incidents && j in after.incidents
      ensures Successive(after.incidents, i, j)
    {
      AddedStaySuccessive(t.incidents, x, id, i, j);
    }
    forall i | i in after.incidents && RunningTowardsOpening(after, after.incidents[i].monitor)
      ensures ResolvedBy(after.incidents[i], after.states[after.incidents[i].monitor].failureStartedAt)
    {
      assert i != id && RunningTowardsOpening(t, t.incidents[i].monitor);
    }
  }

  lemma AddedStaySuccessive(incidents: map<int, Incident>, x: Incident, id: int, i: int, j: int)
    requires forall i, j :: i in incidents && j in incidents ==> Successive(incidents, i, j)
    requires forall i :: i in incidents ==> i < id
    requires forall i :: i in incidents && incidents[i].monitor == x.monitor ==> ResolvedBy(incidents[i], x.openedAt)
    requires (i in incidents || i == id) && (j in incidents || j == id)
    ensures Successive(incidents[id := x], i, j)
  {
    if i in incidents && j in incidents {
      assert Successive(incidents, i, j);
    }
  }

  lemma OpeningKeepsChronological(
    t: Tables, monitor: int, ms: MonitorState, state: State, at: int, step: Transition, checkId: int)
    requires ValidTables(t) && Chronological(t) && InOrder(t, monitor, at)
    requires ms == StateBefore(t, monitor, at) && Timely(ms, state, at, step) && Fits(ms.current, state, step)
    requires step.action.Open?
    ensures Chronological(Apply(t, monitor, step.action, state, at, checkId).(states := t.states[monitor := step.next]))
  {
    var after := Apply(t, monitor, step.action, state, at, checkId).(states := t.states[monitor := step.next]);
    var id := NextIncidentId(t.incidents);
    forall i | i in t.incidents && t.incidents[i].monitor == monitor
      ensures ResolvedBy(t.incidents[i], step.next.failureStartedAt)
    {
      StreakFollowsIncidents(t, monitor, ms, state, at, step, i);
    }
    AddedKeepsChronological(t, after, after.incidents[id], monitor, id, at);
  }

  /** Incidents of other monitors, and those left as they were, stay within their monitor's checks. */
  lemma OthersStayChronological(t: Tables, after: Tables, monitor: int, at: int)
    requires Chronological(t) && InOrder(t, monitor, at)
    requires monitor in after.states && after.states == t.states[monitor := after.states[monitor]]
    requires after.states[monitor].lastCheckAt == Some(at)
    ensures forall i :: i in t.incidents && i in after.incidents && after.incidents[i] == t.incidents[i] ==>
              IncidentChronological(after.incidents[i], LastCheck(after, after.incidents[i].monitor))
  {
  }

  /** The open incident k of a monitor gets a new row x that keeps its dates and may be resolved at a time. */
  ghost predicate Touches(x: Incident, incidents: map<int, Incident>, monitor: int, k: int, at: int) {
    && OpenFor(incidents, monitor, k)
    && x.monitor == monitor && x.openedAt == incidents[k].openedAt && x.detectedAt == incidents[k].detectedAt
    && (x.resolvedAt == None || x.resolvedAt == Some(at))
  }

  /** The open incident is the last of its monitor, so closing it puts nothing out of succession. */
  lemma TouchedStaySuccessive(incidents: map<int, Incident>, x: Incident, monitor: int, k: int, at: int, i: int, j: int)
    requires Touches(x, incidents, monitor, k, at)
    requires forall i, j :: i in incidents && j in incidents ==> Successive(incidents, i, j)
    requires i in incidents && j in incidents
    ensures Successive(incidents[k := x], i, j)
  {
    assert Successive(incidents, i, j);
  }

  lemma TouchedKeepsChronological(t: Tables, after: Tables, x: Incident, monitor: int, k: int, at: int)
    requires Chronological(t) && InOrder(t, monitor, at)
    requires Touches(x, t.incidents, monitor, k, at) && after.incidents == t.incidents[k := x]
    requires monitor in after.states && after.states == t.states[monitor := after.states[monitor]]
    requires StateChronological(after.states[monitor]) && after.states[monitor].lastCheckAt == Some(at)
    requires !RunningTowardsOpening(after, monitor)
    ensures Chronological(after)
  {
    assert IncidentChronological(t.incidents[k], LastCheck(t, monitor));
    assert IncidentChronological(x, LastCheck(after, monitor));
    OthersStayChronological(t, after, monitor, at);
    forall i, j | i in after.incidents && j in after.incidents
      ensures Successive(after.incidents, i, j)
    {
      TouchedStaySuccessive(t.incidents, x, monitor, k, at, i, j);
    }
    forall i | i in after.incidents && RunningTowardsOpening(after, after.incidents[i].monitor)
      ensures ResolvedBy(after.incidents[i], after.states[after.incidents[i].monitor].failureStartedAt)
    {
      assert i != k && RunningTowardsOpening(t, t.incidents[i].monitor);
    }
  }

  lemma UpdateKeepsChronological(
    t: Tables, monitor: int, ms: MonitorState, state: State, at: int, step: Transition, checkId: int)
    requires ValidTables(t) && Chronological(t) && InOrder(t, monitor, at)
    requires ms == StateBefore(t, monitor, at) && Timely(ms, state, at, step) && Fits(ms.current, state, step)
    requires step.action.Change? || step.action.Resolve?
    ensures Chronological(Apply(t, monitor, step.action, state, at, checkId).(states := t.states[monitor := step.next]))
  {
    var after := Apply(t, monitor, step.action, state, at, checkId).(states := t.states[monitor := step.next]);
    assert OneOpenOf(t.states, t.incidents, monitor);
    OpenIncidentFound(t.states, t.incidents, monitor);
    var k := LatestOpen(t.incidents, monitor).value;
    TouchedKeepsChronological(t, after, after.incidents[k], monitor, k, at);
  }

  lemma SteadyKeepsChronological(t: Tables, monitor: int, ms: MonitorState, state: State, at: int, step: Transition)
    requires ValidTables(t) && Chronological(t) && InOrder(t, monitor, at)
    requires ms == StateBefore(t, monitor, at) && Timely(ms, state, at, step) && Fits(ms.current, state, step)
    requires step.action.Nothing?
    ensures Chronological(t.(states := t.states[monitor := step.next]))
  {
    var after := t.(states := t.states[monitor := step.next]);
    forall i | i in t.incidents && RunningTowardsOpening(after, t.incidents[i].monitor)
      ensures ResolvedBy(t.incidents[i], after.states[t.incidents[i].monitor].failureStartedAt)
    {
      if t.incidents[i].monitor == monitor {
        StreakFollowsIncidents(t, monitor, ms, state, at, step, i);
      }
    }
    OthersStayChronological(t, after, monitor, at);
  }

  lemma OutcomeKeepsChronological(t: Tables, check: Check, failureThreshold: int, recoveryThreshold: int)
    requires ValidTables(t) && Chronological(t) && InOrder(t, check.monitor, check.checkedAt)
    ensures Chronological(Outcome(t, check, failureThreshold, recoveryThreshold))
  {
    var ms := StateBefore(t, check.monitor, check.checkedAt);
    var step := Advance(ms, check.state, check.checkedAt, failureThreshold, recoveryThreshold);
    AdvanceFits(ms, check.state, check.checkedAt, failureThreshold, recoveryThreshold);
    AdvanceTimely(ms, check.state, check.checkedAt, failureThreshold, recoveryThreshold);
    match step.action
    case Open(_) => OpeningKeepsChronological(t, check.monitor, ms, check.state, check.checkedAt, step, check.id);
    case Nothing => SteadyKeepsChronological(t, check.monitor, ms, check.state, check.checkedAt, step);
    case _ => UpdateKeepsChronological(t, check.monitor, ms, check.state, check.checkedAt, step, check.id);
  }

  /** Recording a check no earlier than the monitor's last one keeps its incidents in succession. */
  lemma RecordKeepsChronological(
    t: Tables, monitor: int, source: Source, state: State, duration: int, at: int, failureThreshold: int,
    recoveryThreshold: int)
    requires ValidTables(t) && Chronological(t)
    requires source == Authenticated ==> InOrder(t, monitor, at)
    ensures Chronological(RecordCheck(t, monitor, source, state, duration, at, failureThreshold, recoveryThreshold))
  {
    if monitor in t.monitors {
      var check := Check(NextCheckId(t.checks), monitor, source, state, duration, at);
      var inserted := t.(checks := t.checks + [check]);
      InsertCheckKeepsValid(t, check);
      InsertCheckKeepsChronological(t, check);
      if source == Authenticated {
        OutcomeKeepsChronological(inserted, check, failureThreshold, recoveryThreshold);
      }
    }
  }

  lemma InsertCheckKeepsChronological(t: Tables, c: Check)
    requires Chronological(t)
    ensures Chronological(t.(checks := t.checks + [c]))
  {
    SubsetStaysChronological(t, t.(checks := t.checks + [c]));
  }

  lemma CreateKeepsChronological(t: Tables, monitor: int)
    requires Chronological(t)
    ensures Chronological(Create(t, monitor))
  {
    SubsetStaysChronological(t, Create(t, monitor));
  }

  /** Pruning touches neither the incidents nor the state rows. */
  lemma PruneKeepsChronological(t: Tables, cutoff: int)
    requires Chronological(t)
    ensures Chronological(Prune(t, cutoff))
  {
    SubsetStaysChronological(t, Prune(t, cutoff));
  }

  lemma ResetKeepsChronological(t: Tables, monitor: int)
    requires References(t) && Chronological(t)
    ensures Chronological(Reset(t, monitor)) && Chronological(Delete(t, monitor))
  {
    SubsetStaysChronological(t, Reset(t, monitor));
    SubsetStaysChronological(t, Delete(t, monitor));
  }

  /** Fewer incidents and state rows, each as it was, stay in order. */
  lemma SubsetStaysChronological(t: Tables, after: Tables)
    requires Chronological(t)
    requires forall m :: m in after.states ==> m in t.states && after.states[m] == t.states[m]
    requires forall i :: i in after.incidents ==> i in t.incidents && after.incidents[i] == t.incidents[i]
    requires forall i :: i in after.incidents ==> after.incidents[i].monitor in after.states || after.states == t.states
    ensures Chronological(after)
  {
    forall i | i in after.incidents
      ensures IncidentChronological(after.incidents[i], LastCheck(after, after.incidents[i].monitor))
    {
      assert IncidentChronological(t.incidents[i], LastCheck(t, t.incidents[i].monitor));
    }
    forall i, j | i in after.incidents && j in after.incidents
      ensures Successive(after.incidents, i, j)
    {
      assert Successive(t.incidents, i, j);
    }
  }
}
