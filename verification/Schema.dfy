/** The rows of the monitor database. */
module Schema {
  import opened Rows

  /** The outcome of a check; Unknown means the host itself had no connectivity. */
  datatype State = Healthy | AuthFailed | ApiIssue | ConnectionIssue | Unknown

  predicate Failing(state: State) { state != Healthy && state != Unknown }

  datatype Source = Authenticated | Public

  /** A row of check_results. */
  datatype Check = Check(id: int, monitor: int, source: Source, state: State, duration: int, checkedAt: int)

  /** A row of monitor_states. A failureStartedAt of 0 means no failure streak is running. */
  datatype MonitorState = MonitorState(
    current: State,
    stateSince: int,
    lastRaw: State,
    failureStreak: int,
    recoveryStreak: int,
    failureStartedAt: int,
    lastCheckAt: Option<int>)

  /** A row of incidents, keyed by its id. */
  datatype Incident = Incident(
    monitor: int,
    openedAt: int,
    detectedAt: int,
    resolvedAt: Option<int>,
    initial: State,
    latest: State)

  datatype EventKind = Opened | StateChanged(previous: State) | Recovered

  /** A row of incident_events; the table keeps its rows in insertion order. */
  datatype Event = Event(incident: int, kind: EventKind, newState: State, createdAt: int, check: Option<int>)

  /** A row of check_rollups and its primary key. */
  datatype Key = Key(monitor: int, width: int, start: int)

  datatype Rollup = Rollup(
    total: int,
    healthy: int,
    eligible: int,
    slowest: int,
    p50: Option<int>,
    p95: Option<int>)

  /** The time an incident lasts: [openedAt, resolvedAt), or from openedAt on while it is unresolved. */
  datatype Period = Period(openedAt: int, resolvedAt: Option<int>)

  function PeriodOf(x: Incident): Period {
    Period(x.openedAt, x.resolvedAt)
  }

  /** The incident covers the second that starts at t. */
  predicate Covers(p: Period, t: int) {
    p.openedAt <= t && (p.resolvedAt == None || t < p.resolvedAt.value)
  }
}
