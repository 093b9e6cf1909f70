/** The history tables as one value, what each transaction does to it, and what every transaction keeps. */
module HistoryTables {
  import opened Rows
  import opened Schema
  import opened Incidents

  datatype Tables = Tables(
    monitors: set<int>,
    checks: seq<Check>,
    states: map<int, MonitorState>,
    incidents: map<int, Incident>,
    events: seq<Event>)


  // ----- Row ids -----

  ghost predicate IsMax(ids: set<int>, m: int) {
    m in ids && forall id :: id in ids ==> id <= m
  }

  ghost function MaxOf(ids: set<int>): (m: int)
    requires ids != {}
    ensures IsMax(ids, m)
  {
    MaxExists(ids);
    var m :| IsMax(ids, m);
    m
  }

  lemma {:induction false} MaxExists(ids: set<int>)
    requires ids != {}
    ensures exists m :: IsMax(ids, m)
  {
    assert (forall x :: x !in ids) ==> ids == {};
    var x :| x in ids;
    var rest := ids - {x};
    assert forall id :: id in ids ==> id == x || id in rest;
    if rest == {} {
      assert IsMax(ids, x);
    } else {
      MaxExists(rest);
      var m :| IsMax(rest, m);
      assert IsMax(ids, if m < x then x else m);
    }
  }

  /** The id SQLite gives a new incident: one more than the largest in use, so ids of deleted rows return. */
  ghost function NextIncidentId(incidents: map<int, Incident>): (id: int)
    ensures id !in incidents && forall i :: i in incidents ==> i < id
  {
    if incidents.Keys == {} then 1 else MaxOf(incidents.Keys) + 1
  }

  /** The id SQLite gives a new check; the rows are stored in id order. */
  function NextCheckId(checks: seq<Check>): int {
    if checks == [] then 1 else checks[|checks| - 1].id + 1
  }

  // ----- Incidents of a monitor -----

  predicate OpenFor(incidents: map<int, Incident>, monitor: int, i: int) {
    i in incidents && incidents[i].monitor == monitor && incidents[i].resolvedAt == None
  }

  /** The row `WHERE monitor_id=? AND resolved_at IS NULL ORDER BY id DESC LIMIT 1`. */
  ghost predicate IsLatestOpen(incidents: map<int, Incident>, monitor: int, i: int) {
    OpenFor(incidents, monitor, i) && forall j :: OpenFor(incidents, monitor, j) ==> j <= i
  }

  ghost function LatestOpen(incidents: map<int, Incident>, monitor: int): Option<int> {
    if exists i :: IsLatestOpen(incidents, monitor, i) then
      var i :| IsLatestOpen(incidents, monitor, i);
      Some(i)
    else None
  }

  function OfIncident(incident: int): Event -> bool {
    (e: Event) => e.incident == incident
  }

  function Timeline(events: seq<Event>, incident: int): seq<Event> {
    Keep(events, OfIncident(incident))
  }

  // ----- Transactions -----

  /** The incident statements of one recorded check. */
  ghost function Apply(t: Tables, monitor: int, action: Action, state: State, at: int, checkId: int): Tables {
    match action
    case Nothing => t
    case Open(openedAt) =>
      var id := NextIncidentId(t.incidents);
      t.(incidents := t.incidents[id := Incident(monitor, openedAt, at, None, state, state)],
         events := t.events + [Event(id, Opened, state, at, Some(checkId))])
    case Change(previous) =>
      var open := LatestOpen(t.incidents, monitor);
      if open == None then t
      else t.(incidents := t.incidents[open.value := t.incidents[open.value].(latest := state)],
              events := t.events + [Event(open.value, StateChanged(previous), state, at, Some(checkId))])
    case Resolve =>
      var open := LatestOpen(t.incidents, monitor);
      if open == None then t
      else t.(incidents := t.incidents[open.value := t.incidents[open.value].(resolvedAt := Some(at))],
              events := t.events + [Event(open.value, Recovered, Healthy, at, Some(checkId))])
  }

  function StateBefore(t: Tables, monitor: int, at: int): MonitorState {
    if monitor in t.states then t.states[monitor] else Fresh(at)
  }

  /** The state machine and its incident statements, for an authenticated check already inserted. */
  ghost function Outcome(t: Tables, check: Check, failureThreshold: int, recoveryThreshold: int): Tables {
    var before := StateBefore(t, check.monitor, check.checkedAt);
    var step := Advance(before, check.state, check.checkedAt, failureThreshold, recoveryThreshold);
    Apply(t, check.monitor, step.action, check.state, check.checkedAt, check.id)
      .(states := t.states[check.monitor := step.next])
  }

  /** recordResult. A check of a monitor that no longer exists is refused by its foreign key. */
  ghost function RecordCheck(
    t: Tables, monitor: int, source: Source, state: State, duration: int, at: int,
    failureThreshold: int, recoveryThreshold: int): Tables
  {
    if monitor !in t.monitors then t
    else
      var check := Check(NextCheckId(t.checks), monitor, source, state, duration, at);
      var inserted := t.(checks := t.checks + [check]);
      if source == Public then inserted
      else Outcome(inserted, check, failureThreshold, recoveryThreshold)
  }

  function Since(cutoff: int): Check -> bool { (c: Check) => c.checkedAt >= cutoff }

  function NotOf(monitor: int): Check -> bool { (c: Check) => c.monitor != monitor }

  function Expired(checks: seq<Check>, cutoff: int): set<int> {
    set c | c in checks && c.checkedAt < cutoff :: c.id
  }

  /** An event row after the statement that clears references to a set of checks. */
  function Cleared(e: Event, ids: set<int>): Event {
    if e.check.Some? && e.check.value in ids then e.(check := None) else e
  }

  function ClearedAll(events: seq<Event>, ids: set<int>): seq<Event> {
    seq(|events|, i requires 0 <= i < |events| => Cleared(events[i], ids))
  }

  /** pruneHistory: references to expired checks become NULL, then the checks go. */
  function Prune(t: Tables, cutoff: int): Tables {
    t.(events := ClearedAll(t.events, Expired(t.checks, cutoff)), checks := Keep(t.checks, Since(cutoff)))
  }

  function NotOfIncidents(ids: set<int>): Event -> bool { (e: Event) => e.incident !in ids }

  function IncidentsOf(incidents: map<int, Incident>, monitor: int): set<int> {
    set i | i in incidents && incidents[i].monitor == monitor
  }

  /** resetHistory of one monitor. */
  function Reset(t: Tables, monitor: int): Tables {
    var ids := IncidentsOf(t.incidents, monitor);
    Tables(t.monitors, Keep(t.checks, NotOf(monitor)), t.states - {monitor}, t.incidents - ids,
           Keep(t.events, NotOfIncidents(ids)))
  }

  /** resetHistory of every monitor. */
  function ResetAll(t: Tables): Tables {
    Tables(t.monitors, [], map[], map[], [])
  }

  function Delete(t: Tables, monitor: int): Tables {
    Reset(t, monitor).(monitors := t.monitors - {monitor})
  }

  function Create(t: Tables, monitor: int): Tables {
    t.(monitors := t.monitors + {monitor})
  }

  // ----- The invariants -----

  ghost predicate Stored(checks: seq<Check>, id: int) {
    exists c :: c in checks && c.id == id
  }

  ghost predicate HasCheck(checks: seq<Check>, id: int, monitor: int) {
    exists c :: c in checks && c.id == id && c.monitor == monitor
  }

  /** Row ids are unique and start at 1; the rows are kept in id order. */
  ghost predicate IdsAscend(checks: seq<Check>) {
    forall i, j :: 0 <= i <= j < |checks| ==> 1 <= checks[i].id && (i < j ==> checks[i].id < checks[j].id)
  }

  /** Selecting rows keeps them in id order. */
  lemma {:induction false} KeepAscends(checks: seq<Check>, p: Check -> bool)
    requires IdsAscend(checks)
    ensures IdsAscend(Keep(checks, p))
  {
    if checks != [] {
      var init, last := checks[..|checks| - 1], checks[|checks| - 1];
      KeepAscends(init, p);
      forall c | c in Keep(init, p)
        ensures c.id < last.id
      {
        KeepMember(init, p, c);
      }
    }
  }

  /** Every reference holds; a check referenced by an event is one of the incident's own monitor. */
  ghost predicate References(t: Tables) {
    && IdsAscend(t.checks)
    && (forall c :: c in t.checks ==> c.monitor in t.monitors)
    && t.states.Keys <= t.monitors
    && (forall i :: i in t.incidents ==> t.incidents[i].monitor in t.states)
    && (forall e :: e in t.events ==> e.incident in t.incidents)
    && (forall e :: e in t.events && e.check.Some? ==>
                      HasCheck(t.checks, e.check.value, t.incidents[e.incident].monitor))
  }

  ghost predicate OnlyOpen(incidents: map<int, Incident>, monitor: int, i: int) {
    OpenFor(incidents, monitor, i) && forall j :: OpenFor(incidents, monitor, j) ==> j == i
  }

  /** Exactly one unresolved incident while the monitor is down, carrying its state; none while it is up. */
  ghost predicate OneOpenOf(states: map<int, MonitorState>, incidents: map<int, Incident>, monitor: int) {
    if monitor in states && states[monitor].current != Healthy then
      && Failing(states[monitor].current)
      && exists i :: OnlyOpen(incidents, monitor, i) && incidents[i].latest == states[monitor].current
    else
      forall i :: !OpenFor(incidents, monitor, i)
  }

  ghost predicate OneOpen(t: Tables) {
    forall monitor :: OneOpenOf(t.states, t.incidents, monitor)
  }

  /** What an event log says about its incident. */
  datatype Story = Story(initial: State, latest: State, detectedAt: int, resolvedAt: Option<int>)

  /**
   * Reads an event log: one `opened`, then state changes that each start from the state reached and move
   * to another failing state, then at most one `recovered`. Any other log has no story.
   */
  function Replay(log: seq<Event>): Option<Story> {
    if log == [] then None
    else
      var e := log[|log| - 1];
      if |log| == 1 then
        if e.kind == Opened && Failing(e.newState)
        then Some(Story(e.newState, e.newState, e.createdAt, None)) else None
      else
        match Replay(log[..|log| - 1])
        case None => None
        case Some(story) =>
          if story.resolvedAt != None then None
          else match e.kind
            case Opened => None
            case StateChanged(previous) =>
              if previous == story.latest && e.newState != previous && Failing(e.newState)
              then Some(story.(latest := e.newState)) else None
            case Recovered =>
              if e.newState == Healthy then Some(story.(resolvedAt := Some(e.createdAt))) else None
  }

  function Told(i: Incident): Story {
    Story(i.initial, i.latest, i.detectedAt, i.resolvedAt)
  }

  /** Replaying the events of any incident yields its initial state, latest state and resolution. */
  ghost predicate LogsReplay(t: Tables) {
    forall i :: i in t.incidents ==> Replay(Timeline(t.events, i)) == Some(Told(t.incidents[i]))
  }

  ghost predicate ValidTables(t: Tables) {
    References(t) && OneOpen(t) && LogsReplay(t)
  }

  // ----- Chronology: what holds once a monitor's checks are recorded in time order -----

  /** The time of a monitor's last authenticated check, if it has had one since its last reset. */
  function LastCheck(t: Tables, monitor: int): Option<int> {
    if monitor in t.states then t.states[monitor].lastCheckAt else None
  }

  ghost predicate InOrder(t: Tables, monitor: int, at: int) {
    at > 0 && forall last :: LastCheck(t, monitor) == Some(last) ==> last <= at
  }

  ghost predicate StateChronological(ms: MonitorState) {
    && ms.lastCheckAt.Some?
    && 0 < ms.lastCheckAt.value
    && (Failing(ms.lastRaw) ==> 0 < ms.failureStartedAt <= ms.lastCheckAt.value)
  }

  ghost predicate IncidentChronological(x: Incident, last: Option<int>) {
    && last.Some?
    && 0 < x.openedAt <= x.detectedAt <= last.value
    && (x.resolvedAt.Some? ==> x.detectedAt <= x.resolvedAt.value <= last.value)
  }

  ghost predicate ResolvedBy(x: Incident, at: int) {
    x.resolvedAt.Some? && x.resolvedAt.value <= at
  }

  /** A newer incident of the same monitor opens no earlier than the older one was resolved. */
  ghost predicate Successive(incidents: map<int, Incident>, i: int, j: int)
    requires i in incidents && j in incidents
  {
    incidents[i].monitor == incidents[j].monitor && i < j ==> ResolvedBy(incidents[i], incidents[j].openedAt)
  }

  ghost predicate Chronological(t: Tables) {
    && (forall m :: m in t.states ==> StateChronological(t.states[m]))
    && (forall i :: i in t.incidents ==> IncidentChronological(t.incidents[i], LastCheck(t, t.incidents[i].monitor)))
    && (forall i, j :: i in t.incidents && j in t.incidents ==> Successive(t.incidents, i, j))
    && (forall i :: i in t.incidents && RunningTowardsOpening(t, t.incidents[i].monitor)
                    ==> ResolvedBy(t.incidents[i], t.states[t.incidents[i].monitor].failureStartedAt))
  }

  /** The monitor is up and its last check failed, so the streak may become an incident. */
  ghost predicate RunningTowardsOpening(t: Tables, monitor: int) {
    monitor in t.states && t.states[monitor].current == Healthy && Failing(t.states[monitor].lastRaw)
  }
}
