/** Inputs on which two dashboard figures say more than their names promise. */
module EdgeCases {
  import opened Rows
  import opened Schema
  import opened Buckets
  import opened Incidents
  import opened HistoryTables
  import opened Invariants
  import opened Rollups
  import opened Dashboard
  import opened Snapshot

  /** A failing and then a healthy check in the same second, with both thresholds 1. */
  ghost function FailAndHeal(t: Tables, monitor: int, failure: State, slow: int, fast: int, at: int): Tables {
    RecordCheck(RecordCheck(t, monitor, Authenticated, failure, slow, at, 1, 1),
                monitor, Authenticated, Healthy, fast, at, 1, 1)
  }

  lemma FailureOpens(t: Tables, monitor: int, failure: State, duration: int, at: int)
    requires monitor in t.monitors && Failing(failure)
    requires monitor in t.states ==> t.states[monitor].current == Healthy && t.states[monitor].lastRaw != failure
    ensures var failed := RecordCheck(t, monitor, Authenticated, failure, duration, at, 1, 1);
      && failed.monitors == t.monitors
      && monitor in failed.states
      && failed.states[monitor].current == failure && failed.states[monitor].recoveryStreak == 0
      && failed.incidents ==
         t.incidents[NextIncidentId(t.incidents) := Incident(monitor, at, at, None, failure, failure)]
  {
  }

  lemma HealingResolves(t: Tables, monitor: int, i: int, duration: int, at: int)
    requires monitor in t.monitors && monitor in t.states && t.states[monitor].current != Healthy
    requires t.states[monitor].recoveryStreak >= 0 && OnlyOpen(t.incidents, monitor, i)
    ensures RecordCheck(t, monitor, Authenticated, Healthy, duration, at, 1, 1).incidents ==
            t.incidents[i := t.incidents[i].(resolvedAt := Some(at))]
  {
    assert IsLatestOpen(t.incidents, monitor, i);
  }

  /** The incident of such a pair was resolved in the second it opened. */
  lemma InstantIncident(t: Tables, monitor: int, failure: State, slow: int, fast: int, at: int)
    requires OneOpenOf(t.states, t.incidents, monitor) && monitor in t.monitors && Failing(failure)
    requires monitor in t.states ==> t.states[monitor].current == Healthy && t.states[monitor].lastRaw != failure
    ensures var id := NextIncidentId(t.incidents);
      var incidents := FailAndHeal(t, monitor, failure, slow, fast, at).incidents;
      id in incidents && incidents[id] == Incident(monitor, at, at, Some(at), failure, failure)
  {
    var failed, id := RecordCheck(t, monitor, Authenticated, failure, slow, at, 1, 1), NextIncidentId(t.incidents);
    FailureOpens(t, monitor, failure, slow, at);
    forall j | OpenFor(failed.incidents, monitor, j)
      ensures j == id
    {
      assert !OpenFor(t.incidents, monitor, j);
    }
    HealingResolves(failed, monitor, id, fast, at);
  }

  /** It covers no second of any bucket, and marks the bucket of that second unless it is the bucket's first. */
  lemma InstantIncidentMarksBucket(x: Incident, at: int, width: int)
    requires x.openedAt == at && x.resolvedAt == Some(at) && width > 0
    ensures var start := BucketStartFor(at, width);
      && !Meets(PeriodOf(x), start, width)
      && (Overlaps(PeriodOf(x), start, width) <==> !Aligned(at, width))
  {
    BucketContains(at, width);
    if Aligned(at, width) {
      BucketUnique(at, width, at);
    }
  }

  /** So a snapshot shows an outage in that bucket, and the incident covers none of its seconds. */
  lemma InstantIncidentShown(
    t: Tables, monitor: int, failure: State, slow: int, fast: int, at: int, width: int, now: int)
    requires OneOpenOf(t.states, t.incidents, monitor) && monitor in t.monitors && Failing(failure)
    requires monitor in t.states ==> t.states[monitor].current == Healthy && t.states[monitor].lastRaw != failure
    requires width > 0 && !Aligned(at, width) && at < now
    ensures var id := NextIncidentId(t.incidents);
      var incidents := FailAndHeal(t, monitor, failure, slow, fast, at).incidents;
      && OutageIn(incidents, monitor, now, BucketStartFor(at, width), width)
      && id in incidents && forall s :: !Covers(PeriodOf(incidents[id]), s)
  {
    InstantIncident(t, monitor, failure, slow, fast, at);
    var incidents, id := FailAndHeal(t, monitor, failure, slow, fast, at).incidents, NextIncidentId(t.incidents);
    InstantIncidentMarksBucket(incidents[id], at, width);
  }

  /**
   * A completed check stamped at now, in a second that starts no bucket, is counted although it does not
   * precede now.
   */
  lemma CheckAtNowCounted(
    t: Tables, monitor: int, state: State, duration: int, failureThreshold: int, recoveryThreshold: int,
    rollups: map<Key, Rollup>, monitors: seq<int>, spec: Range, now: int)
    requires monitor in t.monitors && state != Unknown && spec in RANGES
    requires spec.width > 0 && !Aligned(now, spec.width)
    requires var after :=
        RecordCheck(t, monitor, Authenticated, state, duration, now, failureThreshold, recoveryThreshold);
      && Agrees(rollups, after.checks)
      && Distinct(monitors) && forall c :: c in after.checks ==> c.monitor in monitors
    ensures var after :=
        RecordCheck(t, monitor, Authenticated, state, duration, now, failureThreshold, recoveryThreshold);
      ChecksToday(rollups, monitors, spec, now) > Count(after.checks, CompletedIn(Midnight(now), now))
  {
    var after := RecordCheck(t, monitor, Authenticated, state, duration, now, failureThreshold, recoveryThreshold);
    var check := Check(NextCheckId(t.checks), monitor, Authenticated, state, duration, now);
    assert after.checks == t.checks + [check];
    assert check in after.checks;
    AtNowCounted(rollups, after.checks, check, monitors, spec, now);
  }

  lemma NowInsideLastBucket(spec: Range, now: int)
    requires spec.width > 0 && spec.points > 0 && !Aligned(now, spec.width)
    ensures now < WindowOf(spec, now).last + spec.width
  {
    WindowShape(spec, now);
    StepsAreAligned(WindowOf(spec, now).last, -1, spec.width);
  }

  lemma AtNowCounted(
    rollups: map<Key, Rollup>, checks: seq<Check>, check: Check, monitors: seq<int>, spec: Range, now: int)
    requires Agrees(rollups, checks) && spec in RANGES && spec.width > 0 && !Aligned(now, spec.width)
    requires Distinct(monitors) && forall c :: c in checks ==> c.monitor in monitors
    requires check in checks && Completed(check) && check.checkedAt == now
    ensures ChecksToday(rollups, monitors, spec, now) > Count(checks, CompletedIn(Midnight(now), now))
  {
    NowInsideLastBucket(spec, now);
    ChecksTodayExact(rollups, checks, monitors, spec, now);
    CountMonotone(checks, CompletedIn(Midnight(now), now),
                  CompletedIn(Midnight(now), WindowOf(spec, now).last + spec.width));
  }
}
