/** The monitor database: one method per SQL statement, and the transactions made of them. */
module Store {
  import opened Rows
  import opened Schema
  import opened Buckets
  import opened OrderStatistics
  import opened Incidents
  import opened HistoryTables
  import opened Invariants
  import opened Rollups

  /** Every condition SQLite enforces by a foreign key or a primary key on these tables. */
  ghost predicate KeysHold(t: Tables, rollups: map<Key, Rollup>) {
    && IdsAscend(t.checks)
    && (forall c :: c in t.checks ==> c.monitor in t.monitors)
    && (forall k :: k in rollups ==> k.monitor in t.monitors)
    && t.states.Keys <= t.monitors
    && (forall i :: i in t.incidents ==> t.incidents[i].monitor in t.monitors)
    && (forall e :: e in t.events ==> e.incident in t.incidents)
    && (forall e :: e in t.events && e.check.Some? ==> Stored(t.checks, e.check.value))
  }

  lemma ValidKeysHold(t: Tables, rollups: map<Key, Rollup>)
    requires ValidTables(t) && Agrees(rollups, t.checks)
    ensures KeysHold(t, rollups)
  {
    forall e | e in t.events && e.check.Some?
      ensures Stored(t.checks, e.check.value)
    {
      var c :| c in t.checks && c.id == e.check.value && c.monitor == t.incidents[e.incident].monitor;
    }
    forall k | k in rollups
      ensures k.monitor in t.monitors
    {
      assert RowAgrees(rollups, t.checks, k);
      BucketOwner(t.checks, k, t.monitors);
    }
  }

  /** A bucket with rows belongs to a monitor that exists. */
  lemma BucketOwner(checks: seq<Check>, k: Key, monitors: set<int>)
    requires BucketRows(checks, k) != [] && forall c :: c in checks ==> c.monitor in monitors
    ensures k.monitor in monitors
  {
    KeepMember(checks, InWindow(k.monitor, k.start, k.start + k.width), BucketRows(checks, k)[0]);
  }

  class Store {
    var monitors: set<int>
    var checks: seq<Check>
    var rollups: map<Key, Rollup>
    var states: map<int, MonitorState>
    var incidents: map<int, Incident>
    var events: seq<Event>

    ghost function Contents(): Tables
      reads this
    {
      Tables(monitors, checks, states, incidents, events)
    }

    ghost predicate Keys()
      reads this
    {
      KeysHold(Contents(), rollups)
    }

    ghost predicate Valid()
      reads this
    {
      ValidTables(Contents()) && Agrees(rollups, checks)
    }

    constructor ()
      ensures Valid() && monitors == {} && checks == []
    {
      monitors, checks, rollups := {}, [], map[];
      states, incidents, events := map[], map[], [];
    }

    // ----- Statements: each keeps the keys, given what its foreign keys ask of it -----

    /** INSERT INTO check_results, refused when the monitor is gone. */
    method InsertCheck(monitor: int, source: Source, state: State, duration: int, at: int) returns (id: Option<int>)
      requires Keys()
      modifies this`checks
      ensures Keys()
      ensures id == if monitor in monitors then Some(NextCheckId(old(checks))) else None
      ensures checks == if id == None then old(checks)
                        else old(checks) + [Check(id.value, monitor, source, state, duration, at)]
    {
      if monitor !in monitors {
        return None;
      }
      var check := Check(NextCheckId(checks), monitor, source, state, duration, at);
      FreshCheckId(checks, check);
      forall k | Stored(checks, k)
        ensures Stored(checks + [check], k)
      {
        var c :| c in checks && c.id == k;
        assert c in checks + [check];
      }
      checks := checks + [check];
      id := Some(check.id);
    }

    /** INSERT INTO incidents. */
    method InsertIncident(incident: Incident) returns (id: int)
      requires Keys() && incident.monitor in monitors
      modifies this`incidents
      ensures Keys()
      ensures id == NextIncidentId(old(incidents))
      ensures incidents == old(incidents)[id := incident]
    {
      var top: Option<int> := None;
      var rest := incidents.Keys;
      while rest != {}
        invariant rest <= incidents.Keys
        invariant top == None ==> rest == incidents.Keys
        invariant top.Some? ==> top.value in incidents && forall i :: i in incidents ==> i in rest || i <= top.value
        decreases rest
      {
        assert (forall i :: i !in rest) ==> rest == {};
        var i :| i in rest;
        if top == None || i > top.value {
          top := Some(i);
        }
        rest := rest - {i};
      }
      id := if top == None then 1 else top.value + 1;
      assert top.Some? ==> IsMax(incidents.Keys, top.value);
      incidents := incidents[id := incident];
    }

    /** UPDATE incidents of one row. */
    method UpdateIncident(id: int, incident: Incident)
      requires Keys() && id in incidents && incident.monitor == incidents[id].monitor
      modifies this`incidents
      ensures Keys()
      ensures incidents == old(incidents)[id := incident]
    {
      incidents := incidents[id := incident];
    }

    /** INSERT INTO incident_events: the incident and the check it names must exist. */
    method InsertEvent(e: Event)
      requires Keys() && e.incident in incidents && (e.check.Some? ==> Stored(checks, e.check.value))
      modifies this`events
      ensures Keys()
      ensures events == old(events) + [e]
    {
      events := events + [e];
    }

    /** INSERT INTO, or UPDATE of, the monitor_states row of a monitor. */
    method PutState(monitor: int, ms: MonitorState)
      requires Keys() && monitor in monitors
      modifies this`states
      ensures Keys()
      ensures states == old(states)[monitor := ms]
    {
      states := states[monitor := ms];
    }

    /** UPDATE incident_events SET check_id = NULL WHERE check_id IN ids. */
    method ClearReferences(ids: set<int>)
      requires Keys()
      modifies this`events
      ensures Keys()
      ensures events == ClearedAll(old(events), ids)
    {
      var before := events;
      events := ClearedAll(events, ids);
      forall e | e in events
        ensures e.incident in incidents && (e.check.Some? ==> Stored(checks, e.check.value))
      {
        var k :| 0 <= k < |before| && e == Cleared(before[k], ids);
        assert before[k] in before;
      }
    }

    /** DELETE FROM check_results of all rows not kept: SQLite refuses it while an event names one of them. */
    method DeleteChecks(keep: Check -> bool)
      requires Keys()
      requires forall e :: e in events && e.check.Some? ==> Stored(Keep(checks, keep), e.check.value)
      modifies this`checks
      ensures Keys()
      ensures checks == Keep(old(checks), keep)
    {
      KeepAscends(checks, keep);
      KeepSubset(checks, keep);
      checks := Keep(checks, keep);
    }

    /** DELETE FROM incident_events of all rows not kept. */
    method DeleteEvents(keep: Event -> bool)
      requires Keys()
      modifies this`events
      ensures Keys()
      ensures events == Keep(old(events), keep)
    {
      KeepSubset(events, keep);
      events := Keep(events, keep);
    }

    /** DELETE FROM incidents: by now no event may name one of them. */
    method DeleteIncidents(ids: set<int>)
      requires Keys() && forall e :: e in events ==> e.incident !in ids
      modifies this`incidents
      ensures Keys()
      ensures incidents == old(incidents) - ids
    {
      incidents := incidents - ids;
    }

    /** INSERT INTO check_rollups ... ON CONFLICT DO UPDATE. */
    method PutRollup(key: Key, row: Rollup)
      requires Keys() && key.monitor in monitors
      modifies this`rollups
      ensures Keys()
      ensures rollups == old(rollups)[key := row]
    {
      rollups := rollups[key := row];
    }

    /** DELETE FROM check_rollups of one row. */
    method DropRollup(key: Key)
      requires Keys()
      modifies this`rollups
      ensures Keys()
      ensures rollups == old(rollups) - {key}
    {
      rollups := rollups - {key};
    }

    /** DELETE FROM check_rollups of the rows of one width before a boundary. */
    method DeleteRollupsBefore(width: int, boundary: int)
      requires Keys()
      modifies this`rollups
      ensures Keys()
      ensures forall k :: k in rollups <==> k in old(rollups) && !(k.width == width && k.start < boundary)
      ensures forall k :: k in rollups ==> rollups[k] == old(rollups)[k]
    {
      rollups := map k | k in rollups && !(k.width == width && k.start < boundary) :: rollups[k];
    }

    /** DELETE FROM check_rollups of one monitor, or of all. */
    method DeleteRollupsOf(monitor: Option<int>)
      requires Keys()
      modifies this`rollups
      ensures Keys()
      ensures forall k :: k in rollups <==> k in old(rollups) && !Selected(monitor, k.monitor)
      ensures forall k :: k in rollups ==> rollups[k] == old(rollups)[k]
    {
      rollups := map k | k in rollups && !Selected(monitor, k.monitor) :: rollups[k];
    }

    /** DELETE FROM monitor_states of one monitor. */
    method DeleteState(monitor: int)
      requires Keys()
      modifies this`states
      ensures Keys()
      ensures states == old(states) - {monitor}
    {
      states := states - {monitor};
    }

    /** DELETE FROM monitors: by now nothing may belong to the monitor. */
    method DeleteMonitorRow(monitor: int)
      requires Keys() && monitor !in states
      requires forall c :: c in checks ==> c.monitor != monitor
      requires forall k :: k in rollups ==> k.monitor != monitor
      requires forall i :: i in incidents ==> incidents[i].monitor != monitor
      modifies this`monitors
      ensures Keys()
      ensures monitors == old(monitors) - {monitor}
    {
      monitors := monitors - {monitor};
    }

    // ----- The rollup cache -----

    /** The scan of a refresh: unknown outcomes are skipped, every other row is counted. */
    static method Tally(
      rows: seq<Check>) returns (total: int, healthy: int, eligible: int, slowest: int, latencies: seq<int>)
      ensures Tallied(Keep(rows, Known()), total, healthy, eligible, slowest, latencies)
    {
      total, healthy, eligible, slowest, latencies := 0, 0, 0, 0, [];
      for i := 0 to |rows|
        invariant Tallied(Keep(rows[..i], Known()), total, healthy, eligible, slowest, latencies)
      {
        PrefixStep(rows, i, Known());
        if rows[i].state == Unknown {
          continue;
        }
        TallyStep(Keep(rows[..i], Known()), rows[i], total, healthy, eligible, slowest, latencies);
        total := total + 1;
        if rows[i].state == Healthy {
          healthy := healthy + 1;
        }
        if rows[i].state != AuthFailed {
          eligible := eligible + 1;
        }
        if rows[i].duration > slowest {
          slowest := rows[i].duration;
        }
        latencies := latencies + [rows[i].duration];
      }
      assert rows[..|rows|] == rows;
    }

    /** Recomputes one bucket from the raw authenticated checks it covers. */
    method RefreshRollupBucket(monitor: int, width: int, start: int)
      requires Keys()
      modifies this`rollups
      ensures Keys()
      ensures rollups == Refreshed(old(rollups), checks, Key(monitor, width, start))
    {
      var rows := Keep(checks, Authentic(monitor, start, start + width));
      var total, healthy, eligible, slowest, latencies := Tally(rows);
      var key := Key(monitor, width, start);
      KnownRows(checks, key);
      if total == 0 {
        DropRollup(key);
      } else {
        BucketOwner(checks, key, monitors);
        var p50, p95 := NearestRank(latencies, 50), NearestRank(latencies, 95);
        PutRollup(key, Rollup(total, healthy, eligible, slowest, p50, p95));
      }
    }

    /** Updates every bucket width covering one check. */
    method RefreshRollupsFor(check: Check, ghost before: seq<Check>)
      requires Keys() && checks == before + [check] && Agrees(rollups, before)
      modifies this`rollups
      ensures Keys()
      ensures Agrees(rollups, checks)
    {
      for w := 0 to |WIDTHS|
        invariant Keys()
        invariant Synced(rollups, w, before, checks)
      {
        SyncedStep(rollups, before, check, w);
        RefreshRollupBucket(check.monitor, WIDTHS[w], BucketStartFor(check.checkedAt, WIDTHS[w]));
      }
      SyncedEnd(rollups, before, checks);
    }

    // ----- Recording a check -----

    /** The monitor's state row, inserted as healthy when it has none. */
    method StateFor(monitor: int, now: int) returns (ms: MonitorState)
      requires Keys() && monitor in monitors
      modifies this`states
      ensures Keys()
      ensures ms == StateBefore(old(Contents()), monitor, now)
      ensures states == old(states)[monitor := ms]
    {
      if monitor in states {
        ms := states[monitor];
      } else {
        ms := Fresh(now);
        PutState(monitor, ms);
      }
    }

    /** SELECT id FROM incidents WHERE monitor_id=? AND resolved_at IS NULL ORDER BY id DESC LIMIT 1. */
    method FindOpen(monitor: int) returns (found: Option<int>)
      ensures found == LatestOpen(incidents, monitor)
    {
      found := None;
      var rest := incidents.Keys;
      while rest != {}
        invariant rest <= incidents.Keys
        invariant found.Some? ==> OpenFor(incidents, monitor, found.value)
        invariant forall j :: OpenFor(incidents, monitor, j) ==> j in rest || (found.Some? && j <= found.value)
        decreases rest
      {
        assert (forall i :: i !in rest) ==> rest == {};
        var i :| i in rest;
        if OpenFor(incidents, monitor, i) && (found == None || i > found.value) {
          found := Some(i);
        }
        rest := rest - {i};
      }
      assert found.Some? ==> IsLatestOpen(incidents, monitor, found.value);
    }

    method OpenIncident(monitor: int, openedAt: int, detected: int, state: State, checkId: int)
      requires Keys() && monitor in monitors && Stored(checks, checkId)
      modifies this`incidents, this`events
      ensures Keys()
      ensures Contents() == Apply(old(Contents()), monitor, Open(openedAt), state, detected, checkId)
      ensures exists i :: i !in old(incidents)
                          && incidents == old(incidents)[i := Incident(monitor, openedAt, detected, None, state, state)]
                          && events == old(events) + [Event(i, Opened, state, detected, Some(checkId))]
    {
      var id := InsertIncident(Incident(monitor, openedAt, detected, None, state, state));
      InsertEvent(Event(id, Opened, state, detected, Some(checkId)));
    }

    /** Reports whether the lookup found an incident to resolve. */
    method ResolveIncident(monitor: int, at: int, checkId: int) returns (found: bool)
      requires Keys() && Stored(checks, checkId)
      modifies this`incidents, this`events
      ensures Keys()
      ensures found == LatestOpen(old(incidents), monitor).Some?
      ensures Contents() == Apply(old(Contents()), monitor, Resolve, Healthy, at, checkId)
      ensures !found ==> incidents == old(incidents) && events == old(events)
      ensures found ==>
                exists i :: IsLatestOpen(old(incidents), monitor, i)
                            && incidents == old(incidents)[i := old(incidents)[i].(resolvedAt := Some(at))]
                            && events == old(events) + [Event(i, Recovered, Healthy, at, Some(checkId))]
    {
      var id := FindOpen(monitor);
      if id == None {
        return false;
      }
      UpdateIncident(id.value, incidents[id.value].(resolvedAt := Some(at)));
      InsertEvent(Event(id.value, Recovered, Healthy, at, Some(checkId)));
      found := true;
    }

    /** Reports whether the lookup found an incident to change. */
    method ChangeIncident(monitor: int, previous: State, next: State, at: int, checkId: int) returns (found: bool)
      requires Keys() && Stored(checks, checkId)
      modifies this`incidents, this`events
      ensures Keys()
      ensures found == LatestOpen(old(incidents), monitor).Some?
      ensures Contents() == Apply(old(Contents()), monitor, Change(previous), next, at, checkId)
      ensures !found ==> incidents == old(incidents) && events == old(events)
      ensures found ==>
                exists i :: IsLatestOpen(old(incidents), monitor, i)
                            && incidents == old(incidents)[i := old(incidents)[i].(latest := next)]
                            && events == old(events) + [Event(i, StateChanged(previous), next, at, Some(checkId))]
    {
      var id := FindOpen(monitor);
      if id == None {
        return false;
      }
      UpdateIncident(id.value, incidents[id.value].(latest := next));
      InsertEvent(Event(id.value, StateChanged(previous), next, at, Some(checkId)));
      found := true;
    }

    /** The state machine on one authenticated check: the streaks, the confirmed state and the incident statements. */
    method Confirm(
      monitor: int, ms0: MonitorState, state: State, at: int, failureThreshold: int, recoveryThreshold: int,
      checkId: int)
      returns (ms: MonitorState)
      requires Keys() && monitor in monitors && Stored(checks, checkId)
      requires ms0.current != Healthy ==> LatestOpen(incidents, monitor).Some?
      modifies this`incidents, this`events
      ensures Keys()
      ensures ms == Advance(ms0, state, at, failureThreshold, recoveryThreshold).next.(lastCheckAt := ms0.lastCheckAt)
      ensures Contents() ==
              var action := Advance(ms0, state, at, failureThreshold, recoveryThreshold).action;
              Apply(old(Contents()), monitor, action, state, at, checkId)
    {
      ms := ms0;
      var previous := ms.current;
      if state == Unknown {
        ms := ms.(failureStreak := 0, failureStartedAt := 0, recoveryStreak := 0, lastRaw := Unknown);
      } else if state == Healthy {
        ms := ms.(failureStreak := 0, failureStartedAt := 0, lastRaw := Healthy);
        if ms.current != Healthy {
          ms := ms.(recoveryStreak := ms.recoveryStreak + 1);
          if ms.recoveryStreak >= recoveryThreshold {
            ms := ms.(current := Healthy, stateSince := at, recoveryStreak := 0);
            var found := ResolveIncident(monitor, at, checkId);
            assert found;
          }
        } else {
          ms := ms.(recoveryStreak := 0);
        }
      } else {
        ms := ms.(recoveryStreak := 0);
        if ms.lastRaw == state {
          ms := ms.(failureStreak := ms.failureStreak + 1);
        } else {
          ms := ms.(failureStreak := 1, failureStartedAt := at);
        }
        ms := ms.(lastRaw := state);
        if ms.current == Healthy && ms.failureStreak >= failureThreshold {
          ms := ms.(current := state, stateSince := ms.failureStartedAt);
          OpenIncident(monitor, ms.failureStartedAt, at, state, checkId);
        } else if ms.current != Healthy && ms.current != state {
          ms := ms.(current := state, stateSince := at);
          var found := ChangeIncident(monitor, previous, state, at, checkId);
          assert found;
        }
      }
    }

    /** The part of a recorded authenticated check that follows its insertion and the rollup refresh. */
    method RecordOutcome(check: Check, failureThreshold: int, recoveryThreshold: int)
      requires Keys() && check in checks && check.monitor in monitors
      requires OneOpenOf(states, incidents, check.monitor)
      modifies this`states, this`incidents, this`events
      ensures Keys()
      ensures Contents() == Outcome(old(Contents()), check, failureThreshold, recoveryThreshold)
    {
      if CurrentOf(states, check.monitor) != Healthy {
        OpenIncidentFound(states, incidents, check.monitor);
      }
      ghost var t := Contents();
      var ms := StateFor(check.monitor, check.checkedAt);
      StatementsIgnoreStates(t, states, check, ms, failureThreshold, recoveryThreshold);
      ms := Confirm(check.monitor, ms, check.state, check.checkedAt, failureThreshold, recoveryThreshold, check.id);
      PutState(check.monitor, ms.(lastCheckAt := Some(check.checkedAt)));
    }

    /**
     * Records one check result in one transaction; None is the refusal of a monitor that is gone. The
     * thresholds are those of the monitor at the time of the call.
     */
    method RecordResult(
      monitor: int, source: Source, state: State, duration: int, at: int, failureThreshold: int,
      recoveryThreshold: int)
      returns (id: Option<int>)
      requires Valid()
      modifies this
      ensures Valid()
      ensures Contents() ==
              RecordCheck(old(Contents()), monitor, source, state, duration, at, failureThreshold, recoveryThreshold)
      ensures id == if monitor in old(monitors) then Some(NextCheckId(old(checks))) else None
      ensures id == None ==> Contents() == old(Contents()) && rollups == old(rollups)
      ensures id.Some? ==> checks == old(checks) + [Check(id.value, monitor, source, state, duration, at)]
      ensures id.Some? ==> forall c :: c in old(checks) ==> c.id < id.value
      ensures source == Public ==> rollups == old(rollups) && Contents() == old(Contents()).(checks := checks)
      ensures id.Some? ==>
                forall k :: IsBucket(k) ==>
                  RowFollows(old(rollups), rollups, Check(id.value, monitor, source, state, duration, at), k)
    {
      ghost var t := Contents();
      FreshIsLargest(t.checks);
      RecordKeepsValid(t, monitor, source, state, duration, at, failureThreshold, recoveryThreshold);
      ValidKeysHold(t, rollups);
      id := InsertCheck(monitor, source, state, duration, at);
      if id == None {
        return;
      }
      var check := Check(id.value, monitor, source, state, duration, at);
      assert checks[|t.checks|] == check;
      if source != Authenticated {
        PublicChecksDoNotCount(rollups, t.checks, check);
        RecordedRows(rollups, rollups, t.checks, check);
        return;
      }
      RefreshRollupsFor(check, t.checks);
      RecordedRows(old(rollups), rollups, t.checks, check);
      assert OneOpenOf(t.states, t.incidents, monitor);
      RecordOutcome(check, failureThreshold, recoveryThreshold);
    }

    // ----- Retention -----

    /** Deletes the checks before the cutoff and brings the rollups back into agreement. */
    method PruneHistory(cutoff: int) returns (removed: int)
      requires Valid()
      modifies this
      ensures Valid()
      ensures Contents() == Prune(old(Contents()), cutoff)
      ensures PrunedTo(old(Contents()), Contents(), cutoff)
      ensures removed == |old(checks)| - |checks|
    {
      ghost var t := Contents();
      PruneKeepsValid(t, cutoff);
      PruneIsExact(t, cutoff);
      ValidKeysHold(t, rollups);
      ClearReferences(Expired(checks, cutoff));
      NothingExpiredIsReferenced(t, cutoff);
      var stored := |checks|;
      DeleteChecks(Since(cutoff));
      removed := stored - |checks|;
      PruneRollups(cutoff, t.checks);
    }

    /** The loop over the widths, once the expired checks are gone. */
    method PruneRollups(cutoff: int, ghost before: seq<Check>)
      requires Keys() && Agrees(rollups, before) && checks == Keep(before, Since(cutoff))
      modifies this`rollups
      ensures Keys()
      ensures Agrees(rollups, checks)
    {
      for w := 0 to |WIDTHS|
        invariant Keys()
        invariant Synced(rollups, w, before, checks)
      {
        PruneWidth(w, cutoff, before);
      }
      SyncedEnd(rollups, before, checks);
    }

    /** One pass of the loop over the widths: drop the buckets before the cutoff, recompute the straddling ones. */
    method PruneWidth(w: nat, cutoff: int, ghost before: seq<Check>)
      requires Keys() && w < |WIDTHS| && checks == Keep(before, Since(cutoff))
      requires Synced(rollups, w, before, checks)
      modifies this`rollups
      ensures Keys()
      ensures Synced(rollups, w + 1, before, checks)
    {
      var width := WIDTHS[w];
      var boundary := BucketStartFor(cutoff, width);
      BucketContains(cutoff, width);
      ghost var stale := rollups;
      DeleteRollupsBefore(width, boundary);
      var straddling := set k | k in rollups && k.width == width && k.start == boundary :: k.monitor;
      forall k: Key | k.width == width && k.start == boundary
        ensures k.monitor in straddling <==> k in rollups
      {
        if k.monitor in straddling {
          assert k == Key(k.monitor, width, boundary);
        }
      }
      StartPruning(stale, rollups, w, straddling, cutoff, before);
      while straddling != {}
        invariant Keys()
        invariant MidPrune(rollups, w, straddling, boundary, before, checks)
        decreases straddling
      {
        assert (forall m :: m !in straddling) ==> straddling == {};
        var monitor :| monitor in straddling;
        PruneStep(rollups, w, straddling, boundary, before, checks, monitor);
        RefreshRollupBucket(monitor, width, boundary);
        straddling := straddling - {monitor};
      }
      FinishPruning(rollups, w, straddling, boundary, before, checks);
    }

    // ----- Rebuilding the cache from scratch -----

    /**
     * Rebuilds the rows of one monitor, or of all, whatever they held. On a cache that already agrees the
     * rebuild changes nothing: both ways of building it yield the same table.
     */
    method RebuildRollups(monitor: Option<int>)
      requires Keys()
      requires forall k: Key :: !Selected(monitor, k.monitor) ==> RowAgrees(rollups, checks, k)
      modifies this`rollups
      ensures Keys()
      ensures Agrees(rollups, checks)
      ensures old(Agrees(rollups, checks)) ==> rollups == old(rollups)
    {
      ghost var stale := rollups;
      DeleteRollupsOf(monitor);
      forall k
        ensures GroupedRow(rollups, WIDTHS[..0], monitor, checks, k)
      {
        assert !Selected(monitor, k.monitor) ==> RowAgrees(stale, checks, k);
      }
      for w := 0 to |WIDTHS|
        invariant Keys()
        invariant Grouped(rollups, w, monitor, checks)
      {
        InsertGroups(w, monitor);
      }
      FillRollupPercentiles(monitor);
      if old(Agrees(rollups, checks)) {
        AgreementIsUnique(rollups, old(rollups), checks);
      }
    }

    /**
     * INSERT INTO check_rollups ... SELECT ... GROUP BY, for one width: one row for each group, with the
     * counters the query selects, and no group meets the key of a row already stored.
     */
    method InsertGroups(w: nat, monitor: Option<int>)
      requires Keys() && w < |WIDTHS| && Grouped(rollups, w, monitor, checks)
      modifies this`rollups
      ensures Keys()
      ensures forall k :: IsGroup(checks, WIDTHS[w], monitor, k) ==>
                k !in old(rollups) && k in rollups && rollups[k] == GroupRow(checks, k)
      ensures forall k :: !IsGroup(checks, WIDTHS[w], monitor, k) ==>
                (k in rollups <==> k in old(rollups)) && (k in rollups ==> rollups[k] == old(rollups)[k])
      ensures Grouped(rollups, w + 1, monitor, checks)
    {
      var width := WIDTHS[w];
      var groups := set c | c in checks && Completed(c) && Selected(monitor, c.monitor)
                      :: Key(c.monitor, width, SqlBucketStart(c.checkedAt, width));
      GroupKeys(checks, width, monitor, groups);
      GroupStep(rollups, w, monitor, checks, groups);
      InsertedGroups(rollups, width, monitor, checks, groups, monitors);
      rollups := WithGroups(rollups, checks, groups);
    }

    /** Computes the percentiles of every row that has none yet. */
    method FillRollupPercentiles(monitor: Option<int>)
      requires Keys() && Grouped(rollups, |WIDTHS|, monitor, checks)
      modifies this`rollups
      ensures Keys()
      ensures Agrees(rollups, checks)
    {
      var targets := set k | k in rollups && rollups[k].p95 == None && Selected(monitor, k.monitor);
      StartFilling(rollups, monitor, checks, targets);
      while targets != {}
        invariant Keys()
        invariant Filling(rollups, targets, checks)
        decreases targets
      {
        assert (forall k :: k !in targets) ==> targets == {};
        var item :| item in targets;
        FillStep(rollups, targets, checks, item);
        RefreshRollupBucket(item.monitor, item.width, item.start);
        targets := targets - {item};
      }
    }

    // ----- Resets and deletion -----

    /** The delete statements shared by a reset and a deletion of one monitor, in the source's order. */
    method DeleteHistoryOf(monitor: int)
      requires Valid()
      modifies this
      ensures Valid()
      ensures Contents() == Reset(old(Contents()), monitor)
      ensures RollupsSeparated(old(rollups), rollups, monitor)
    {
      ghost var t := Contents();
      ResetKeepsValid(t, monitor);
      ValidKeysHold(t, rollups);
      ghost var cached := rollups;
      var ids := IncidentsOf(incidents, monitor);
      DeleteEvents(NotOfIncidents(ids));
      KeepSubset(t.events, NotOfIncidents(ids));
      DeleteIncidents(ids);
      OwnChecksOnly(t, monitor);
      DeleteChecks(NotOf(monitor));
      DeleteRollupsOf(Some(monitor));
      DeleteState(monitor);
      ResetCache(cached, rollups, t.checks, monitor);
    }

    /** Resets one monitor, or all of them; false reports that the monitor does not exist. */
    method ResetHistory(monitor: Option<int>) returns (ok: bool)
      requires Valid()
      modifies this
      ensures Valid()
      ensures ok == (monitor == None || monitor.value in old(monitors))
      ensures Contents() == if monitor == None then ResetAll(old(Contents()))
                            else if ok then Reset(old(Contents()), monitor.value) else old(Contents())
      ensures monitors == old(monitors)
      ensures !ok ==> Contents() == old(Contents()) && rollups == old(rollups)
      ensures ok && monitor.Some? ==> Separated(old(Contents()), Contents(), monitor.value)
      ensures ok && monitor.Some? ==> RollupsSeparated(old(rollups), rollups, monitor.value)
      ensures monitor == None ==>
                checks == [] && states == map[] && incidents == map[] && events == [] && rollups == map[]
    {
      ok := true;
      if monitor == None {
        ValidKeysHold(Contents(), rollups);
        events := [];
        assert Keys();
        incidents := map[];
        assert Keys();
        checks := [];
        assert Keys();
        rollups := map[];
        assert Keys();
        states := map[];
        ResetAllKeepsValid(old(Contents()));
        assert forall k :: RowAgrees(rollups, [], k);
      } else if monitor.value !in monitors {
        ok := false;
      } else {
        ResetSeparates(Contents(), monitor.value);
        DeleteHistoryOf(monitor.value);
      }
    }

    /** Deletes a monitor with its history; false reports that there was none to delete. */
    method DeleteMonitor(monitor: int) returns (deleted: bool)
      requires Valid()
      modifies this
      ensures Valid()
      ensures deleted == (monitor in old(monitors))
      ensures Contents() == if deleted then Delete(old(Contents()), monitor) else old(Contents())
      ensures !deleted ==> Contents() == old(Contents()) && rollups == old(rollups)
      ensures deleted ==> monitors == old(monitors) - {monitor}
      ensures deleted ==> Separated(old(Contents()), Contents(), monitor)
      ensures deleted ==> RollupsSeparated(old(rollups), rollups, monitor)
    {
      // Of a monitor that does not exist nothing is stored; the source's transaction is then rolled back.
      if monitor !in monitors {
        return false;
      }
      ResetKeepsValid(Contents(), monitor);
      ResetSeparates(Contents(), monitor);
      deleted := true;
      DeleteHistoryOf(monitor);
      ValidKeysHold(Contents(), rollups);
      NothingLeftOf(Contents(), old(Contents()), rollups, monitor);
      DeleteMonitorRow(monitor);
    }

    /** Adds a monitor with no history. */
    method CreateMonitor(monitor: int)
      requires Valid()
      modifies this`monitors
      ensures Valid()
      ensures Contents() == Create(old(Contents()), monitor)
      ensures monitors == old(monitors) + {monitor}
    {
      CreateKeepsValid(Contents(), monitor);
      monitors := monitors + {monitor};
    }
  }

  // ----- Rebuilding, group by group -----

  /** The rows of a group of the rebuild query. */
  function InGroup(k: Key): Check -> bool {
    (c: Check) =>
      Completed(c) && c.monitor == k.monitor && (k.width > 0 ==> SqlBucketStart(c.checkedAt, k.width) == k.start)
  }

  /** What the rebuild query selects for a group; the percentiles are left for later. */
  function GroupRow(checks: seq<Check>, k: Key): Rollup {
    var rows := Keep(checks, InGroup(k));
    Rollup(|rows|, Count(rows, IsHealthy()), Count(rows, IsEligible()), Largest(Durations(rows)), None, None)
  }

  /** SQL's MAX, which unlike the accumulator of a refresh does not start at 0; 0 stands for its NULL. */
  function Largest(durations: seq<int>): int {
    if durations == [] then 0
    else if |durations| == 1 then durations[0]
    else
      var rest, last := Largest(durations[..|durations| - 1]), durations[|durations| - 1];
      if last > rest then last else rest
  }

  /** After w widths: the selected row, without percentiles, for each bucket of those widths that has checks. */
  ghost predicate Grouped(rollups: map<Key, Rollup>, w: nat, monitor: Option<int>, checks: seq<Check>)
    requires w <= |WIDTHS|
  {
    forall k :: GroupedRow(rollups, WIDTHS[..w], monitor, checks, k)
  }

  ghost predicate GroupedRow(
    rollups: map<Key, Rollup>, widths: seq<int>, monitor: Option<int>, checks: seq<Check>, k: Key) {
    if Selected(monitor, k.monitor) then
      && (k in rollups <==> k.width in widths && IsBucket(k) && BucketRows(checks, k) != [])
      && (k in rollups ==> rollups[k] == GroupRow(checks, k))
    else RowAgrees(rollups, checks, k)
  }

  /** A bucket of the width that has completed checks of a selected monitor: a group of the rebuild query. */
  predicate IsGroup(checks: seq<Check>, width: int, monitor: Option<int>, k: Key) {
    k.width == width && Selected(monitor, k.monitor) && IsBucket(k) && BucketRows(checks, k) != []
  }

  lemma GroupIsBucket(checks: seq<Check>, k: Key, width: int, monitor: Option<int>, groups: set<Key>)
    requires width in WIDTHS
    requires groups == set c | c in checks && Completed(c) && Selected(monitor, c.monitor)
                         :: Key(c.monitor, width, SqlBucketStart(c.checkedAt, width))
    ensures k in groups <==> IsGroup(checks, width, monitor, k)
  {
    if k in groups {
      var c :| c in checks && Completed(c) && Selected(monitor, c.monitor)
               && k == Key(c.monitor, width, SqlBucketStart(c.checkedAt, width));
      SqlBucketIsGoBucket(c.checkedAt, width);
      KeyIsBucket(c, width);
      CoversIffKeyOf(c, k);
      KeepMember(checks, InWindow(k.monitor, k.start, k.start + k.width), c);
    }
    if IsGroup(checks, width, monitor, k) {
      var c := BucketRows(checks, k)[0];
      KeepMember(checks, InWindow(k.monitor, k.start, k.start + k.width), c);
      CoversIffKeyOf(c, k);
      SqlBucketIsGoBucket(c.checkedAt, width);
    }
  }

  lemma GroupKeys(checks: seq<Check>, width: int, monitor: Option<int>, groups: set<Key>)
    requires width in WIDTHS
    requires groups == set c | c in checks && Completed(c) && Selected(monitor, c.monitor)
                         :: Key(c.monitor, width, SqlBucketStart(c.checkedAt, width))
    ensures forall k :: k in groups <==> IsGroup(checks, width, monitor, k)
  {
    forall k
      ensures k in groups <==> IsGroup(checks, width, monitor, k)
    {
      GroupIsBucket(checks, k, width, monitor, groups);
    }
  }

  lemma GroupStep(last: map<Key, Rollup>, w: nat, monitor: Option<int>, checks: seq<Check>, groups: set<Key>)
    requires w < |WIDTHS| && Grouped(last, w, monitor, checks)
    requires forall k :: k in groups <==> IsGroup(checks, WIDTHS[w], monitor, k)
    ensures forall k :: k in groups ==> k !in last
    ensures Grouped(WithGroups(last, checks, groups), w + 1, monitor, checks)
  {
    assert WIDTHS[..w + 1] == WIDTHS[..w] + [WIDTHS[w]];
    assert WIDTHS[w] !in WIDTHS[..w];
    var after, widths := WithGroups(last, checks, groups), WIDTHS[..w + 1];
    forall k
      ensures GroupedRow(after, widths, monitor, checks, k)
      ensures k in groups ==> k !in last
    {
      assert GroupedRow(last, WIDTHS[..w], monitor, checks, k);
    }
  }

  /** The table after the rows of all groups are inserted. */
  function WithGroups(last: map<Key, Rollup>, checks: seq<Check>, groups: set<Key>): map<Key, Rollup> {
    last + map k | k in groups :: GroupRow(checks, k)
  }

  lemma InsertedGroups(
    last: map<Key, Rollup>, width: int, monitor: Option<int>, checks: seq<Check>, groups: set<Key>, monitors: set<int>)
    requires forall k :: k in groups <==> IsGroup(checks, width, monitor, k)
    requires forall c :: c in checks ==> c.monitor in monitors
    requires forall k :: k in last ==> k.monitor in monitors
    ensures var after := WithGroups(last, checks, groups);
      && (forall k :: k in after ==> k.monitor in monitors)
      && (forall k :: IsGroup(checks, width, monitor, k) ==> k in after && after[k] == GroupRow(checks, k))
      && (forall k :: !IsGroup(checks, width, monitor, k) ==>
            (k in after <==> k in last) && (k in after ==> after[k] == last[k]))
  {
    forall k | k in groups
      ensures k.monitor in monitors
    {
      var c := BucketRows(checks, k)[0];
      KeepMember(checks, InWindow(k.monitor, k.start, k.start + k.width), c);
    }
  }

  /** SQL's maximum and the accumulator that starts at 0 differ exactly when all durations are negative. */
  lemma {:induction false} SlowestIsLargestOrZero(durations: seq<int>)
    ensures Slowest(durations) == if Largest(durations) > 0 then Largest(durations) else 0
  {
    if |durations| > 1 {
      SlowestIsLargestOrZero(durations[..|durations| - 1]);
    }
  }

  /** The SQL groups hold exactly the checks of the Go buckets. */
  lemma GroupRowsAreBucketRows(checks: seq<Check>, k: Key)
    requires IsBucket(k)
    ensures Keep(checks, InGroup(k)) == BucketRows(checks, k)
  {
    forall c | c in checks
      ensures InGroup(k)(c) == InWindow(k.monitor, k.start, k.start + k.width)(c)
    {
      CoversIffKeyOf(c, k);
      SqlBucketIsGoBucket(c.checkedAt, k.width);
    }
    KeepSame(checks, InGroup(k), InWindow(k.monitor, k.start, k.start + k.width));
  }

  /**
   * The grouped counters are already those of the direct computation; the slowest check is if and only if
   * the one selected is not negative, as durations are.
   */
  lemma GroupCountersExact(checks: seq<Check>, k: Key)
    requires IsBucket(k)
    ensures var row, direct := GroupRow(checks, k), Summary(BucketRows(checks, k));
      && row.total == direct.total && row.healthy == direct.healthy && row.eligible == direct.eligible
      && (row.slowest == direct.slowest <==> row.slowest >= 0)
  {
    GroupRowsAreBucketRows(checks, k);
    SlowestIsLargestOrZero(Durations(BucketRows(checks, k)));
  }

  /** No check took a negative time, so every grouped row is complete but for its percentiles. */
  lemma GroupRowIsSummary(checks: seq<Check>, k: Key)
    requires IsBucket(k) && forall c :: c in checks ==> c.duration >= 0
    ensures GroupRow(checks, k) == Summary(BucketRows(checks, k)).(p50 := None, p95 := None)
  {
    GroupCountersExact(checks, k);
    LargestNotNegative(checks, InGroup(k));
  }

  lemma LargestNotNegative(checks: seq<Check>, p: Check -> bool)
    requires forall c :: c in checks ==> c.duration >= 0
    ensures Largest(Durations(Keep(checks, p))) >= 0
  {
    var rows := Keep(checks, p);
    DurationsMember(rows);
    forall i | 0 <= i < |rows|
      ensures Durations(rows)[i] >= 0
    {
      KeepMember(checks, p, rows[i]);
    }
    LargestIsASample(Durations(rows));
  }

  lemma {:induction false} LargestIsASample(durations: seq<int>)
    ensures if durations == [] then Largest(durations) == 0 else Largest(durations) in durations
  {
    if |durations| > 1 {
      LargestIsASample(durations[..|durations| - 1]);
    }
  }

  ghost predicate Filling(rollups: map<Key, Rollup>, targets: set<Key>, checks: seq<Check>) {
    forall k :: if k in targets then IsBucket(k) else RowAgrees(rollups, checks, k)
  }

  lemma StartFilling(rollups: map<Key, Rollup>, monitor: Option<int>, checks: seq<Check>, targets: set<Key>)
    requires Grouped(rollups, |WIDTHS|, monitor, checks)
    requires forall k :: k in targets <==> k in rollups && rollups[k].p95 == None && Selected(monitor, k.monitor)
    ensures Filling(rollups, targets, checks)
  {
    forall k
      ensures if k in targets then IsBucket(k) else RowAgrees(rollups, checks, k)
    {
      assert GroupedRow(rollups, WIDTHS[..|WIDTHS|], monitor, checks, k);
    }
  }

  lemma FillStep(rollups: map<Key, Rollup>, targets: set<Key>, checks: seq<Check>, item: Key)
    requires Filling(rollups, targets, checks) && item in targets
    ensures Filling(Refreshed(rollups, checks, item), targets - {item}, checks)
  {
  }

  // ----- Pruning, bucket by bucket -----

  /** The raw checks a row agrees with while the straddling buckets of one width are being recomputed. */
  function Pruning(
    k: Key, w: nat, straddling: set<int>, boundary: int, before: seq<Check>, after: seq<Check>): seq<Check>
    requires w < |WIDTHS|
  {
    if k.width != WIDTHS[w] then Current(k, w, before, after)
    else if k.start == boundary && k.monitor in straddling then before
    else after
  }

  ghost predicate MidPrune(
    rollups: map<Key, Rollup>, w: nat, straddling: set<int>, boundary: int, before: seq<Check>, after: seq<Check>)
    requires w < |WIDTHS|
  {
    forall k :: RowAgrees(rollups, Pruning(k, w, straddling, boundary, before, after), k)
  }

  lemma StartPruning(
    stale: map<Key, Rollup>, rollups: map<Key, Rollup>, w: nat, straddling: set<int>, cutoff: int,
    before: seq<Check>)
    requires w < |WIDTHS| && Synced(stale, w, before, Keep(before, Since(cutoff)))
    requires var boundary := BucketStartFor(cutoff, WIDTHS[w]);
      && (forall k :: k in rollups <==> k in stale && !(k.width == WIDTHS[w] && k.start < boundary))
      && (forall k :: k in rollups ==> rollups[k] == stale[k])
      && (forall k: Key :: k.width == WIDTHS[w] && k.start == boundary ==> (k.monitor in straddling <==> k in rollups))
    ensures MidPrune(rollups, w, straddling, BucketStartFor(cutoff, WIDTHS[w]), before, Keep(before, Since(cutoff)))
  {
    var after, boundary := Keep(before, Since(cutoff)), BucketStartFor(cutoff, WIDTHS[w]);
    forall k
      ensures RowAgrees(rollups, Pruning(k, w, straddling, boundary, before, after), k)
    {
      assert RowAgrees(stale, Current(k, w, before, after), k);
      if k.width == WIDTHS[w] {
        assert WIDTHS[w] !in WIDTHS[..w];
        PrunedRow(stale, rollups, straddling, cutoff, before, k);
      }
    }
  }

  /** One row of the width being pruned, after the rows before the boundary are dropped. */
  lemma PrunedRow(
    stale: map<Key, Rollup>, rollups: map<Key, Rollup>, straddling: set<int>, cutoff: int, before: seq<Check>,
    k: Key)
    requires RowAgrees(stale, before, k)
    requires k in rollups <==> k in stale && k.start >= BucketStartFor(cutoff, k.width)
    requires k in rollups ==> rollups[k] == stale[k]
    requires k.start == BucketStartFor(cutoff, k.width) ==> (k.monitor in straddling <==> k in rollups)
    ensures RowAgrees(rollups, if k.start == BucketStartFor(cutoff, k.width) && k.monitor in straddling then before
                               else Keep(before, Since(cutoff)), k)
  {
    if IsBucket(k) {
      PrunedBucket(before, cutoff, k);
    }
  }

  lemma PruneStep(
    last: map<Key, Rollup>, w: nat, straddling: set<int>, boundary: int, before: seq<Check>, after: seq<Check>,
    monitor: int)
    requires w < |WIDTHS| && Aligned(boundary, WIDTHS[w]) && MidPrune(last, w, straddling, boundary, before, after)
    ensures MidPrune(Refreshed(last, after, Key(monitor, WIDTHS[w], boundary)), w, straddling - {monitor}, boundary,
                     before, after)
  {
    var key, rest := Key(monitor, WIDTHS[w], boundary), straddling - {monitor};
    forall k
      ensures RowAgrees(Refreshed(last, after, key), Pruning(k, w, rest, boundary, before, after), k)
    {
      assert RowAgrees(last, Pruning(k, w, straddling, boundary, before, after), k);
      RefreshedAgrees(last, after, key, k, Pruning(k, w, straddling, boundary, before, after));
    }
  }

  lemma NoneStraddles(
    k: Key, w: nat, straddling: set<int>, boundary: int, before: seq<Check>, after: seq<Check>)
    requires w < |WIDTHS| && straddling == {}
    ensures Pruning(k, w, straddling, boundary, before, after) == Current(k, w + 1, before, after)
  {
    assert WIDTHS[..w + 1] == WIDTHS[..w] + [WIDTHS[w]];
  }

  lemma FinishPruning(
    rollups: map<Key, Rollup>, w: nat, straddling: set<int>, boundary: int, before: seq<Check>, after: seq<Check>)
    requires w < |WIDTHS| && straddling == {} && MidPrune(rollups, w, straddling, boundary, before, after)
    ensures Synced(rollups, w + 1, before, after)
  {
    var next := w + 1;
    forall k
      ensures RowAgrees(rollups, Current(k, next, before, after), k)
    {
      assert RowAgrees(rollups, Pruning(k, w, straddling, boundary, before, after), k);
      NoneStraddles(k, w, straddling, boundary, before, after);
    }
  }

  /** A cutoff empties the buckets before the one it falls in and leaves the later ones alone. */
  lemma PrunedBucket(checks: seq<Check>, cutoff: int, k: Key)
    requires IsBucket(k)
    ensures var boundary := BucketStartFor(cutoff, k.width);
      && (k.start < boundary ==> BucketRows(Keep(checks, Since(cutoff)), k) == [])
      && (k.start > boundary ==> BucketRows(Keep(checks, Since(cutoff)), k) == BucketRows(checks, k))
      && (BucketRows(checks, k) == [] ==> BucketRows(Keep(checks, Since(cutoff)), k) == [])
  {
    var boundary := BucketStartFor(cutoff, k.width);
    BucketContains(cutoff, k.width);
    AlignedApart(k.start, boundary, k.width);
    AlignedApart(boundary, k.start, k.width);
    if k.start < boundary {
      EmptiedBucket(checks, Since(cutoff), k);
    } else if k.start > boundary {
      FilteredBucket(checks, Since(cutoff), k);
    } else if BucketRows(checks, k) == [] {
      forall c | c in checks
        ensures !InWindow(k.monitor, k.start, k.start + k.width)(c)
      {
        EmptyBucket(checks, k, c);
      }
      FilteredBucket(checks, Since(cutoff), k);
    }
  }

  /** Once the references to expired checks are cleared, every reference left is to a check that stays. */
  lemma NothingExpiredIsReferenced(t: Tables, cutoff: int)
    requires References(t)
    ensures forall e :: e in ClearedAll(t.events, Expired(t.checks, cutoff)) && e.check.Some? ==>
              Stored(Keep(t.checks, Since(cutoff)), e.check.value)
  {
    var gone := Expired(t.checks, cutoff);
    forall e | e in ClearedAll(t.events, gone) && e.check.Some?
      ensures Stored(Keep(t.checks, Since(cutoff)), e.check.value)
    {
      var k :| 0 <= k < |t.events| && e == Cleared(t.events[k], gone);
      assert t.events[k] in t.events;
      var c :| c in t.checks && c.id == e.check.value && c.monitor == t.incidents[e.incident].monitor;
      KeepMember(t.checks, Since(cutoff), c);
    }
  }

  /**
   * Why the references are cleared first: deleting the expired checks outright would pass the foreign key
   * exactly when no event names an expired check.
   */
  lemma ClearingIsNeeded(t: Tables, cutoff: int)
    requires References(t)
    ensures (forall e :: e in t.events && e.check.Some? ==> Stored(Keep(t.checks, Since(cutoff)), e.check.value)) <==>
            (forall e :: e in t.events && e.check.Some? ==> e.check.value !in Expired(t.checks, cutoff))
  {
    forall e | e in t.events && e.check.Some?
      ensures Stored(Keep(t.checks, Since(cutoff)), e.check.value) <==> e.check.value !in Expired(t.checks, cutoff)
    {
      SurvivesIffNotExpired(t.checks, cutoff, e.check.value, t.incidents[e.incident].monitor);
    }
  }

  lemma SurvivesIffNotExpired(checks: seq<Check>, cutoff: int, id: int, monitor: int)
    requires IdsAscend(checks) && HasCheck(checks, id, monitor)
    ensures Stored(Keep(checks, Since(cutoff)), id) <==> id !in Expired(checks, cutoff)
  {
    var c :| c in checks && c.id == id && c.monitor == monitor;
    KeepMember(checks, Since(cutoff), c);
    KeepSubset(checks, Since(cutoff));
    forall d | d in checks && d.id == id
      ensures d == c
    {
      var i :| 0 <= i < |checks| && checks[i] == c;
      var j :| 0 <= j < |checks| && checks[j] == d;
    }
  }

  // ----- Resets -----

  /** The events left by a reset name checks of other monitors, because an event names its own monitor's check. */
  lemma OwnChecksOnly(t: Tables, monitor: int)
    requires References(t)
    ensures forall e :: e in Keep(t.events, NotOfIncidents(IncidentsOf(t.incidents, monitor))) && e.check.Some? ==>
              Stored(Keep(t.checks, NotOf(monitor)), e.check.value)
  {
    var kept := NotOfIncidents(IncidentsOf(t.incidents, monitor));
    forall e | e in Keep(t.events, kept) && e.check.Some?
      ensures Stored(Keep(t.checks, NotOf(monitor)), e.check.value)
    {
      KeepMember(t.events, kept, e);
      var c :| c in t.checks && c.id == e.check.value && c.monitor == t.incidents[e.incident].monitor;
      KeepMember(t.checks, NotOf(monitor), c);
    }
  }

  lemma ResetCache(cached: map<Key, Rollup>, rollups: map<Key, Rollup>, checks: seq<Check>, monitor: int)
    requires Agrees(cached, checks)
    requires forall k :: k in rollups <==> k in cached && k.monitor != monitor
    requires forall k :: k in rollups ==> rollups[k] == cached[k]
    ensures Agrees(rollups, Keep(checks, NotOf(monitor)))
  {
    forall k
      ensures RowAgrees(rollups, Keep(checks, NotOf(monitor)), k)
    {
      assert RowAgrees(cached, checks, k);
      if k.monitor == monitor {
        EmptiedBucket(checks, NotOf(monitor), k);
      } else {
        FilteredBucket(checks, NotOf(monitor), k);
      }
    }
  }

  /** The rollups of the monitor are gone, and all others are as they were. */
  ghost predicate RollupsSeparated(before: map<Key, Rollup>, after: map<Key, Rollup>, monitor: int) {
    && (forall k: Key :: k in after <==> k in before && k.monitor != monitor)
    && (forall k :: k in after ==> after[k] == before[k])
  }

  /** After its history is deleted nothing refers to the monitor. */
  lemma NothingLeftOf(t: Tables, before: Tables, rollups: map<Key, Rollup>, monitor: int)
    requires References(before) && t == Reset(before, monitor) && Agrees(rollups, t.checks)
    ensures monitor !in t.states
    ensures forall c :: c in t.checks ==> c.monitor != monitor
    ensures forall i :: i in t.incidents ==> t.incidents[i].monitor != monitor
    ensures forall k :: k in rollups ==> k.monitor != monitor
  {
    KeepSubset(before.checks, NotOf(monitor));
    forall k | k in rollups
      ensures k.monitor != monitor
    {
      assert RowAgrees(rollups, t.checks, k);
      KeepMember(t.checks, InWindow(k.monitor, k.start, k.start + k.width), BucketRows(t.checks, k)[0]);
    }
  }

  // ----- Recording -----

  lemma FreshIsLargest(checks: seq<Check>)
    requires IdsAscend(checks)
    ensures forall c :: c in checks ==> c.id < NextCheckId(checks)
  {
  }

  /** The incident statements of a check neither read nor write the state rows. */
  lemma StatementsIgnoreStates(
    t: Tables, states: map<int, MonitorState>, check: Check, ms: MonitorState, failureThreshold: int,
    recoveryThreshold: int)
    requires ms == StateBefore(t, check.monitor, check.checkedAt) && states == t.states[check.monitor := ms]
    ensures var step := Advance(ms, check.state, check.checkedAt, failureThreshold, recoveryThreshold);
      && step.next.lastCheckAt == Some(check.checkedAt)
      && Outcome(t, check, failureThreshold, recoveryThreshold) ==
         Apply(t.(states := states), check.monitor, step.action, check.state, check.checkedAt, check.id)
           .(states := states[check.monitor := step.next])
  {
  }

  lemma PublicChecksDoNotCount(rollups: map<Key, Rollup>, checks: seq<Check>, c: Check)
    requires Agrees(rollups, checks) && c.source == Public
    ensures Agrees(rollups, checks + [c])
  {
    forall k
      ensures RowAgrees(rollups, checks + [c], k)
    {
      assert RowAgrees(rollups, checks, k);
      if IsBucket(k) {
        InsertedBucket(checks, c, k);
      }
    }
  }

  /** The raw checks that the rows of a width agree with once the first w widths are refreshed. */
  function Current(k: Key, w: nat, before: seq<Check>, after: seq<Check>): seq<Check>
    requires w <= |WIDTHS|
  {
    if k.width in WIDTHS[..w] then after else before
  }

  ghost predicate Synced(rollups: map<Key, Rollup>, w: nat, before: seq<Check>, after: seq<Check>)
    requires w <= |WIDTHS|
  {
    forall k :: RowAgrees(rollups, Current(k, w, before, after), k)
  }

  lemma SyncedStep(stale: map<Key, Rollup>, before: seq<Check>, check: Check, w: nat)
    requires w < |WIDTHS| && Synced(stale, w, before, before + [check])
    ensures Synced(Refreshed(stale, before + [check], KeyOf(check, WIDTHS[w])), w + 1, before, before + [check])
  {
    var key, after, next := KeyOf(check, WIDTHS[w]), before + [check], w + 1;
    KeyIsBucket(check, WIDTHS[w]);
    forall k
      ensures RowAgrees(Refreshed(stale, after, key), Current(k, next, before, after), k)
    {
      assert RowAgrees(stale, Current(k, w, before, after), k);
      RefreshedAgrees(stale, after, key, k, Current(k, w, before, after));
      assert WIDTHS[..w + 1] == WIDTHS[..w] + [WIDTHS[w]];
      if k.width == WIDTHS[w] && k != key && IsBucket(k) {
        InsertedBucket(before, check, k);
      }
    }
  }

  /** Rows exist only for the stored widths, so once all of them are refreshed the cache agrees. */
  lemma SyncedEnd(rollups: map<Key, Rollup>, before: seq<Check>, after: seq<Check>)
    requires Synced(rollups, |WIDTHS|, before, after)
    ensures Agrees(rollups, after)
  {
    forall k
      ensures RowAgrees(rollups, after, k)
    {
      assert RowAgrees(rollups, Current(k, |WIDTHS|, before, after), k);
    }
  }

  predicate Selected(filter: Option<int>, monitor: int) {
    filter == None || filter.value == monitor
  }

  /** The running totals of a refresh over the rows counted so far. */
  ghost predicate Tallied(
    counted: seq<Check>, total: int, healthy: int, eligible: int, slowest: int, latencies: seq<int>) {
    && total == |counted|
    && healthy == Count(counted, IsHealthy())
    && eligible == Count(counted, IsEligible())
    && latencies == Durations(counted)
    && slowest == Slowest(latencies)
  }

  lemma TallyStep(
    counted: seq<Check>, row: Check, total: int, healthy: int, eligible: int, slowest: int, latencies: seq<int>)
    requires Tallied(counted, total, healthy, eligible, slowest, latencies)
    ensures Tallied(counted + [row], total + 1, if row.state == Healthy then healthy + 1 else healthy,
                    if row.state != AuthFailed then eligible + 1 else eligible,
                    if row.duration > slowest then row.duration else slowest, latencies + [row.duration])
  {
  }

  /** The rows a refresh reads, less the unknown outcomes it skips, are the rows of the bucket. */
  lemma KnownRows(checks: seq<Check>, k: Key)
    ensures Keep(Keep(checks, Authentic(k.monitor, k.start, k.start + k.width)), Known()) == BucketRows(checks, k)
  {
    var read := Authentic(k.monitor, k.start, k.start + k.width);
    var covered := InWindow(k.monitor, k.start, k.start + k.width);
    KeepKeep(checks, read, Known());
    KeepSame(checks, Both(read, Known()), covered);
  }
}
