/** The incidents of a monitor, told from its history of checks alone. */
module Chronicle {
  import opened Rows
  import opened Schema
  import opened Incidents
  import opened HistoryTables
  import opened Invariants
  import Overview

  /** The stored state of a monitor is what its history since the last reset leads to. */
  ghost predicate Traces(t: Tables, monitor: int, h: seq<Observation>) {
    if h == [] then monitor !in t.states else monitor in t.states && t.states[monitor] == After(h)
  }

  /** The time of the first check of the run that ends a history. */
  function RunStart(h: seq<Observation>): int
    requires h != []
  {
    TrailingRunIsMaximal(h);
    h[|h| - TrailingRun(h)].at
  }

  /** The state of the last failing check; Healthy if there is none. */
  function LastFailure(h: seq<Observation>): State {
    if h == [] then Healthy
    else if Failing(h[|h| - 1].state) then h[|h| - 1].state
    else LastFailure(h[..|h| - 1])
  }

  // ----- One recorded check -----

  /** A new incident of the check's monitor, dated to a start and detected by the check, and its opening event. */
  ghost predicate OpensAt(t: Tables, after: Tables, c: Check, start: int) {
    exists i :: i !in t.incidents
                && after.incidents == t.incidents[i := Incident(c.monitor, start, c.checkedAt, None, c.state, c.state)]
                && after.events == t.events + [Event(i, Opened, c.state, c.checkedAt, Some(c.id))]
  }

  /** The only open incident of the monitor ends with the check; all its other fields stay. */
  ghost predicate Resolves(t: Tables, after: Tables, c: Check) {
    exists i :: OnlyOpen(t.incidents, c.monitor, i)
                && after.incidents == t.incidents[i := t.incidents[i].(resolvedAt := Some(c.checkedAt))]
                && after.events == t.events + [Event(i, Recovered, Healthy, c.checkedAt, Some(c.id))]
  }

  /** The only open incident of the monitor passes from its last state to the check's; all its other fields stay. */
  ghost predicate Changes(t: Tables, after: Tables, c: Check, previous: State) {
    exists i :: OnlyOpen(t.incidents, c.monitor, i) && t.incidents[i].latest == previous
                && after.incidents == t.incidents[i := t.incidents[i].(latest := c.state)]
                && after.events == t.events + [Event(i, StateChanged(previous), c.state, c.checkedAt, Some(c.id))]
  }

  /** What the last check c of a history does to the incidents and their logs. */
  ghost predicate FollowsHistory(t: Tables, after: Tables, h: seq<Observation>, c: Check)
    requires h != []
  {
    var n := |h| - 1;
    var down := ConfirmedDown(h[..n]);
    if !down && FailureConfirmed(h, n) then OpensAt(t, after, c, RunStart(h))
    else if down && RecoveryConfirmed(h, n) then Resolves(t, after, c)
    else if down && Failing(c.state) && c.state != LastFailure(h[..n]) then Changes(t, after, c, LastFailure(h[..n]))
    else after.incidents == t.incidents && after.events == t.events
  }

  lemma {:induction false} DownStateFromHistory(h: seq<Observation>)
    requires h != [] && After(h).current != Healthy
    ensures After(h).current == LastFailure(h)
  {
    CountersAreTrailingRuns(h);
    if !Failing(h[|h| - 1].state) && |h| > 1 {
      DownStateFromHistory(h[..|h| - 1]);
    }
  }

  lemma SanePrefix(h: seq<Observation>, o: Observation)
    requires SaneThresholds(h + [o])
    ensures SaneThresholds(h)
  {
    assert forall i :: 0 <= i < |h| ==> h[i] == (h + [o])[i];
  }

  /** What a history says of the state it leads to. */
  lemma StateFromHistory(h: seq<Observation>)
    requires SaneThresholds(h)
    ensures h != [] && After(h).current != Healthy <==> ConfirmedDown(h)
    ensures h != [] && After(h).current != Healthy ==> After(h).current == LastFailure(h)
  {
    if h != [] {
      DownIffConfirmed(h);
      if After(h).current != Healthy {
        DownStateFromHistory(h);
      }
    }
  }

  function CheckOf(t: Tables, monitor: int, o: Observation, duration: int): Check {
    Check(NextCheckId(t.checks), monitor, Authenticated, o.state, duration, o.at)
  }

  ghost function AfterCheck(t: Tables, monitor: int, o: Observation, duration: int): Tables {
    RecordCheck(t, monitor, Authenticated, o.state, duration, o.at, o.failureThreshold, o.recoveryThreshold)
  }

  lemma LastStep(h: seq<Observation>, o: Observation)
    ensures var before := if h == [] then Fresh(o.at) else After(h);
      AdvanceBy(before, o) == Transition(After(h + [o]), LastAction(h + [o]))
    ensures DownBefore(h + [o]) <==> h != [] && After(h).current != Healthy
  {
    assert (h + [o])[..|h|] == h;
  }

  /** When the last check asks for which incident statement. */
  lemma ActionFromHistory(h: seq<Observation>, o: Observation)
    requires SaneThresholds(h + [o])
    ensures var all, action := h + [o], LastAction(h + [o]);
      && (action.Open? <==> !ConfirmedDown(h) && FailureConfirmed(all, |h|))
      && (action.Open? ==> action.openedAt == RunStart(all))
      && (action.Resolve? <==> ConfirmedDown(h) && RecoveryConfirmed(all, |h|))
      && (action.Change? <==> ConfirmedDown(h) && Failing(o.state) && o.state != LastFailure(h))
      && (action.Change? ==> action.previous == LastFailure(h))
  {
    var all := h + [o];
    assert all[..|all| - 1] == h;
    ActionsFollowHistory(all);
    LastStep(h, o);
    SanePrefix(h, o);
    StateFromHistory(h);
  }

  /** The statements each action amounts to, while the monitor has at most the one open incident. */
  lemma StatementsOfAction(t: Tables, c: Check, action: Action)
    requires OneOpenOf(t.states, t.incidents, c.monitor)
    requires action.Resolve? || action.Change? ==> CurrentOf(t.states, c.monitor) != Healthy
    requires action.Change? ==> action.previous == CurrentOf(t.states, c.monitor)
    requires action.Resolve? ==> c.state == Healthy
    ensures var after := Apply(t, c.monitor, action, c.state, c.checkedAt, c.id);
      match action
      case Nothing => after.incidents == t.incidents && after.events == t.events
      case Open(start) => OpensAt(t, after, c, start)
      case Change(previous) => Changes(t, after, c, previous)
      case Resolve => Resolves(t, after, c)
  {
    var after := Apply(t, c.monitor, action, c.state, c.checkedAt, c.id);
    if action.Open? {
      var i := NextIncidentId(t.incidents);
      assert after.events == t.events + [Event(i, Opened, c.state, c.checkedAt, Some(c.id))];
    } else if action != Nothing {
      OpenIncidentFound(t.states, t.incidents, c.monitor);
      var i := LatestOpen(t.incidents, c.monitor).value;
      assert OnlyOpen(t.incidents, c.monitor, i);
    }
  }

  /**
   * What recording one authenticated check does, told from the monitor's history: exactly the check's row is
   * added, the incidents and their logs follow the history, and no other monitor's state row changes.
   */
  lemma RecordFollowsHistory(t: Tables, monitor: int, h: seq<Observation>, o: Observation, duration: int)
    requires OneOpen(t) && monitor in t.monitors && Traces(t, monitor, h) && SaneThresholds(h + [o])
    ensures var after := AfterCheck(t, monitor, o, duration);
      && Traces(after, monitor, h + [o])
      && FollowsHistory(t, after, h + [o], CheckOf(t, monitor, o, duration))
      && after.monitors == t.monitors && after.checks == t.checks + [CheckOf(t, monitor, o, duration)]
      && after.states.Keys == t.states.Keys + {monitor}
      && forall m :: m in t.states && m != monitor ==> after.states[m] == t.states[m]
  {
    var c := CheckOf(t, monitor, o, duration);
    var inserted := t.(checks := t.checks + [c]);
    assert (h + [o])[..|h|] == h;
    LastStep(h, o);
    ActionFromHistory(h, o);
    SanePrefix(h, o);
    StateFromHistory(h);
    assert OneOpenOf(t.states, t.incidents, monitor);
    var action := LastAction(h + [o]);
    assert action.Resolve? ==> o.state == Healthy;
    StatementsOfAction(inserted, c, action);
  }

  // ----- The incidents of a whole history -----

  /** The incidents after the last check of a history, given those before it. */
  ghost function NextIncidents(monitor: int, h: seq<Observation>, earlier: seq<Incident>): seq<Incident>
    requires h != []
  {
    var n := |h| - 1;
    var down, at, state := ConfirmedDown(h[..n]), h[n].at, h[n].state;
    if !down && FailureConfirmed(h, n) then earlier + [Incident(monitor, RunStart(h), at, None, state, state)]
    else if !down || earlier == [] then earlier
    else
      var open := earlier[|earlier| - 1];
      if RecoveryConfirmed(h, n) then earlier[|earlier| - 1 := open.(resolvedAt := Some(at))]
      else if Failing(state) then earlier[|earlier| - 1 := open.(latest := state)]
      else earlier
  }

  /** The incidents a history gives rise to, oldest first. */
  ghost function IncidentsFrom(monitor: int, h: seq<Observation>): seq<Incident> {
    if h == [] then [] else NextIncidents(monitor, h, IncidentsFrom(monitor, h[..|h| - 1]))
  }

  /** All incidents are resolved, but for the last while the monitor is down; that one carries its state. */
  ghost predicate OnlyLastOpen(xs: seq<Incident>, monitor: int, h: seq<Observation>) {
    && (forall p :: 0 <= p < |xs| ==> xs[p].monitor == monitor)
    && (forall p :: 0 <= p < |xs| - 1 ==> xs[p].resolvedAt.Some?)
    && (ConfirmedDown(h) <==> xs != [] && xs[|xs| - 1].resolvedAt == None)
    && (ConfirmedDown(h) ==> xs != [] && xs[|xs| - 1].latest == LastFailure(h))
  }

  lemma NextLastOpen(monitor: int, h: seq<Observation>, xs: seq<Incident>)
    requires h != [] && SaneThresholds(h) && OnlyLastOpen(xs, monitor, h[..|h| - 1])
    ensures OnlyLastOpen(NextIncidents(monitor, h, xs), monitor, h)
  {
    DownOneCheckLater(h);
  }

  lemma {:induction false} LastIsOpenWhileDown(monitor: int, h: seq<Observation>)
    requires SaneThresholds(h)
    ensures OnlyLastOpen(IncidentsFrom(monitor, h), monitor, h)
  {
    if h == [] {
      assert !ConfirmedDown(h);
    } else {
      var n := |h| - 1;
      LastIsOpenWhileDown(monitor, h[..n]);
      NextLastOpen(monitor, h, IncidentsFrom(monitor, h[..n]));
    }
  }

  /** The stored incidents of a monitor are exactly xs, each under an id of its own. */
  ghost predicate StoredAs(incidents: map<int, Incident>, monitor: int, xs: seq<Incident>, ids: seq<int>) {
    && |ids| == |xs|
    && (forall p :: 0 <= p < |ids| ==> ids[p] in incidents && incidents[ids[p]] == xs[p])
    && (forall p, q :: 0 <= p < q < |ids| ==> ids[p] != ids[q])
    && (forall i :: i in incidents && incidents[i].monitor == monitor ==> i in ids)
  }

  ghost predicate Accounts(incidents: map<int, Incident>, monitor: int, xs: seq<Incident>) {
    exists ids :: StoredAs(incidents, monitor, xs, ids)
  }

  lemma OpeningAccounts(
    incidents: map<int, Incident>, monitor: int, xs: seq<Incident>, ids: seq<int>, i: int, x: Incident)
    requires StoredAs(incidents, monitor, xs, ids) && i !in incidents
    ensures Accounts(incidents[i := x], monitor, xs + [x])
  {
    assert StoredAs(incidents[i := x], monitor, xs + [x], ids + [i]);
  }

  lemma UpdateAccounts(
    incidents: map<int, Incident>, monitor: int, h: seq<Observation>, xs: seq<Incident>, ids: seq<int>, i: int,
    x: Incident)
    requires StoredAs(incidents, monitor, xs, ids) && OnlyLastOpen(xs, monitor, h)
    requires OpenFor(incidents, monitor, i) && x.monitor == monitor
    ensures xs != [] && incidents[i] == xs[|xs| - 1]
    ensures Accounts(incidents[i := x], monitor, xs[|xs| - 1 := x])
  {
    var p :| 0 <= p < |ids| && ids[p] == i;
    assert p == |xs| - 1;
    assert StoredAs(incidents[i := x], monitor, xs[|xs| - 1 := x], ids);
  }

  lemma FollowingAccounts(
    t: Tables, after: Tables, monitor: int, h: seq<Observation>, c: Check, xs: seq<Incident>, ids: seq<int>)
    requires h != [] && StoredAs(t.incidents, monitor, xs, ids) && OnlyLastOpen(xs, monitor, h[..|h| - 1])
    requires c.monitor == monitor && c.state == h[|h| - 1].state && c.checkedAt == h[|h| - 1].at
    requires FollowsHistory(t, after, h, c)
    ensures Accounts(after.incidents, monitor, NextIncidents(monitor, h, xs))
  {
    var n := |h| - 1;
    var down := ConfirmedDown(h[..n]);
    if !down && FailureConfirmed(h, n) {
      var x := Incident(monitor, RunStart(h), c.checkedAt, None, c.state, c.state);
      var i :| i !in t.incidents && after.incidents == t.incidents[i := x];
      OpeningAccounts(t.incidents, monitor, xs, ids, i, x);
    } else if down && RecoveryConfirmed(h, n) {
      var i :| OnlyOpen(t.incidents, monitor, i)
               && after.incidents == t.incidents[i := t.incidents[i].(resolvedAt := Some(c.checkedAt))];
      UpdateAccounts(t.incidents, monitor, h[..n], xs, ids, i, t.incidents[i].(resolvedAt := Some(c.checkedAt)));
    } else if down && Failing(c.state) && c.state != LastFailure(h[..n]) {
      var i :| OnlyOpen(t.incidents, monitor, i)
               && after.incidents == t.incidents[i := t.incidents[i].(latest := c.state)];
      UpdateAccounts(t.incidents, monitor, h[..n], xs, ids, i, t.incidents[i].(latest := c.state));
    } else {
      assert NextIncidents(monitor, h, xs) == xs;
    }
  }

  /** A check recorded on top of a history leaves exactly the incidents of the longer history. */
  lemma RecordAccounts(t: Tables, after: Tables, monitor: int, h: seq<Observation>, o: Observation, c: Check)
    requires SaneThresholds(h + [o]) && Accounts(t.incidents, monitor, IncidentsFrom(monitor, h))
    requires c.monitor == monitor && c.state == o.state && c.checkedAt == o.at
    requires FollowsHistory(t, after, h + [o], c)
    ensures Accounts(after.incidents, monitor, IncidentsFrom(monitor, h + [o]))
  {
    var all, xs := h + [o], IncidentsFrom(monitor, h);
    assert all[..|all| - 1] == h;
    SanePrefix(h, o);
    LastIsOpenWhileDown(monitor, h);
    var ids :| StoredAs(t.incidents, monitor, xs, ids);
    FollowingAccounts(t, after, monitor, all, c, xs, ids);
  }

  /** The two tables hold the same incidents of a monitor. */
  ghost predicate SameFor(before: map<int, Incident>, after: map<int, Incident>, monitor: int) {
    forall i :: (i in after && after[i].monitor == monitor <==> i in before && before[i].monitor == monitor)
                && (i in after && after[i].monitor == monitor ==> after[i] == before[i])
  }

  lemma SameForAccounts(before: map<int, Incident>, after: map<int, Incident>, monitor: int, h: seq<Observation>)
    requires SaneThresholds(h) && SameFor(before, after, monitor)
    requires Accounts(before, monitor, IncidentsFrom(monitor, h))
    ensures Accounts(after, monitor, IncidentsFrom(monitor, h))
  {
    LastIsOpenWhileDown(monitor, h);
    var ids :| StoredAs(before, monitor, IncidentsFrom(monitor, h), ids);
    assert StoredAs(after, monitor, IncidentsFrom(monitor, h), ids);
  }

  lemma NoneAccounts(incidents: map<int, Incident>, monitor: int)
    requires forall i :: i in incidents ==> incidents[i].monitor != monitor
    ensures Accounts(incidents, monitor, IncidentsFrom(monitor, []))
  {
    assert StoredAs(incidents, monitor, [], []);
  }

  /** A check of one monitor leaves the incidents of all others alone. */
  lemma FollowingKeepsOthers(t: Tables, after: Tables, h: seq<Observation>, c: Check, other: int)
    requires h != [] && FollowsHistory(t, after, h, c) && other != c.monitor
    ensures SameFor(t.incidents, after.incidents, other)
  {
  }

  /** A check recorded for one monitor lengthens its history; the incidents of every monitor follow their histories. */
  lemma RecordKeepsAccounts(
    t: Tables, monitor: int, h: seq<Observation>, o: Observation, duration: int, m: int, g: seq<Observation>)
    requires OneOpen(t) && monitor in t.monitors && Traces(t, monitor, h) && SaneThresholds(h + [o])
    requires SaneThresholds(g) && (m == monitor ==> g == h)
    requires Accounts(t.incidents, m, IncidentsFrom(m, g))
    ensures Accounts(AfterCheck(t, monitor, o, duration).incidents, m,
                     IncidentsFrom(m, if m == monitor then h + [o] else g))
  {
    var c, after := CheckOf(t, monitor, o, duration), AfterCheck(t, monitor, o, duration);
    RecordFollowsHistory(t, monitor, h, o, duration);
    if m == monitor {
      RecordAccounts(t, after, m, h, o, c);
    } else {
      FollowingKeepsOthers(t, after, h + [o], c, m);
      SameForAccounts(t.incidents, after.incidents, m, g);
    }
  }

  /** A reset of one monitor ends its history with its incidents; the others keep theirs. */
  lemma ResetKeepsAccounts(t: Tables, monitor: int, m: int, g: seq<Observation>)
    requires SaneThresholds(g) && Accounts(t.incidents, m, IncidentsFrom(m, g))
    ensures Accounts(Reset(t, monitor).incidents, m, IncidentsFrom(m, if m == monitor then [] else g))
  {
    var incidents := Reset(t, monitor).incidents;
    if m == monitor {
      NoneAccounts(incidents, m);
    } else {
      SameForAccounts(t.incidents, incidents, m, g);
    }
  }

  // ----- What each incident says about the history -----

  /** Check k confirms a failure of the monitor while it is up. */
  ghost predicate Opening(h: seq<Observation>, k: int) {
    0 <= k < |h| && FailureConfirmed(h, k) && !ConfirmedDown(h[..k])
  }

  /** Check r is the first after k to confirm a recovery. */
  ghost predicate FirstRecovery(h: seq<Observation>, k: int, r: int) {
    k < r < |h| && RecoveryConfirmed(h, r) && forall q :: k < q < r ==> !RecoveryConfirmed(h, q)
  }

  ghost predicate Unrecovered(h: seq<Observation>, k: int) {
    forall r :: k < r < |h| ==> !RecoveryConfirmed(h, r)
  }

  /** The checks at which incidents open. */
  ghost function Openings(h: seq<Observation>): (ks: seq<int>)
    ensures forall p :: 0 <= p < |ks| ==> 0 <= ks[p] < |h|
    ensures forall p, q :: 0 <= p < q < |ks| ==> ks[p] < ks[q]
  {
    if h == [] then []
    else if Opening(h, |h| - 1) then Openings(h[..|h| - 1]) + [|h| - 1]
    else Openings(h[..|h| - 1])
  }

  lemma OpeningEarlier(h: seq<Observation>, k: int)
    requires h != [] && k < |h| - 1
    ensures Opening(h, k) <==> Opening(h[..|h| - 1], k)
  {
    ConfirmedEarlier(h, k);
    if 0 <= k {
      assert h[..|h| - 1][..k] == h[..k];
    }
  }

  /** Openings lists exactly the checks that confirm a failure of the monitor while it is up. */
  lemma {:induction false} OpeningsComplete(h: seq<Observation>, k: int)
    ensures k in Openings(h) <==> Opening(h, k)
  {
    if h != [] {
      OpeningsComplete(h[..|h| - 1], k);
      if k < |h| - 1 {
        OpeningEarlier(h, k);
      }
    }
  }

  /**
   * An incident that check k opened: dated to the first failure of the run k confirms, detected and first
   * classified by k, and resolved by the first confirmed recovery after k, if there has been one.
   */
  ghost predicate Tells(x: Incident, h: seq<Observation>, k: int)
    requires 0 <= k < |h|
  {
    && x.openedAt == RunStart(h[..k + 1])
    && x.detectedAt == h[k].at
    && x.initial == h[k].state
    && match x.resolvedAt
       case None => Unrecovered(h, k) && x.latest == LastFailure(h)
       case Some(at) => exists r :: FirstRecovery(h, k, r) && h[r].at == at && x.latest == LastFailure(h[..r])
  }

  /** A resolved incident is not told differently by a longer history. */
  lemma ResolvedStaysTold(x: Incident, h: seq<Observation>, k: int)
    requires h != [] && 0 <= k < |h| - 1 && x.resolvedAt.Some? && Tells(x, h[..|h| - 1], k)
    ensures Tells(x, h, k)
  {
    var init := h[..|h| - 1];
    var r :| FirstRecovery(init, k, r) && init[r].at == x.resolvedAt.value && x.latest == LastFailure(init[..r]);
    RecoveriesEarlier(h);
    assert init[..k + 1] == h[..k + 1] && init[..r] == h[..r];
    assert FirstRecovery(h, k, r);
  }

  lemma RecoveriesEarlier(h: seq<Observation>)
    requires h != []
    ensures forall r :: r < |h| - 1 ==> (RecoveryConfirmed(h, r) <==> RecoveryConfirmed(h[..|h| - 1], r))
  {
    forall r | r < |h| - 1
      ensures RecoveryConfirmed(h, r) <==> RecoveryConfirmed(h[..|h| - 1], r)
    {
      ConfirmedEarlier(h, r);
    }
  }

  /** The open incident after one more check: resolved by it, or still open with its state. */
  lemma OpenStaysTold(x: Incident, h: seq<Observation>, k: int)
    requires h != [] && 0 <= k < |h| - 1 && x.resolvedAt == None && Tells(x, h[..|h| - 1], k)
    ensures RecoveryConfirmed(h, |h| - 1) ==> Tells(x.(resolvedAt := Some(h[|h| - 1].at)), h, k)
    ensures !RecoveryConfirmed(h, |h| - 1) ==>
              Tells(if Failing(h[|h| - 1].state) then x.(latest := h[|h| - 1].state) else x, h, k)
  {
    var n := |h| - 1;
    RecoveriesEarlier(h);
    assert h[..n][..k + 1] == h[..k + 1];
    if RecoveryConfirmed(h, n) {
      assert FirstRecovery(h, k, n);
    }
  }

  lemma OpenedIsTold(monitor: int, h: seq<Observation>)
    requires h != []
    ensures var n := |h| - 1;
      Failing(h[n].state) ==> Tells(Incident(monitor, RunStart(h), h[n].at, None, h[n].state, h[n].state), h, n)
  {
    assert h[..|h|] == h;
  }

  /** One check more: the incidents told so far stay told, and a new one is told by the check. */
  lemma NextTold(monitor: int, h: seq<Observation>, xs: seq<Incident>, p: nat, k: int)
    requires h != [] && OnlyLastOpen(xs, monitor, h[..|h| - 1]) && p < |xs|
    requires 0 <= k < |h| - 1 && Tells(xs[p], h[..|h| - 1], k)
    ensures p < |NextIncidents(monitor, h, xs)| && Tells(NextIncidents(monitor, h, xs)[p], h, k)
  {
    if xs[p].resolvedAt.Some? {
      ResolvedStaysTold(xs[p], h, k);
    } else {
      OpenStaysTold(xs[p], h, k);
    }
  }

  lemma {:induction false} AsManyAsOpenings(monitor: int, h: seq<Observation>)
    ensures |IncidentsFrom(monitor, h)| == |Openings(h)|
  {
    if h != [] {
      AsManyAsOpenings(monitor, h[..|h| - 1]);
    }
  }

  /** The p-th incident of a history is the one its p-th opening check opened. */
  lemma {:induction false} IncidentTold(monitor: int, h: seq<Observation>, p: nat)
    requires SaneThresholds(h) && p < |Openings(h)|
    ensures |Openings(h)| == |IncidentsFrom(monitor, h)|
    ensures Tells(IncidentsFrom(monitor, h)[p], h, Openings(h)[p])
  {
    var n := |h| - 1;
    AsManyAsOpenings(monitor, h);
    AsManyAsOpenings(monitor, h[..n]);
    if p < |Openings(h[..n])| {
      IncidentTold(monitor, h[..n], p);
      LastIsOpenWhileDown(monitor, h[..n]);
      NextTold(monitor, h, IncidentsFrom(monitor, h[..n]), p, Openings(h[..n])[p]);
    } else {
      OpenedIsTold(monitor, h);
    }
  }

  // ----- The seconds of an outage -----

  /** An outage that check k confirmed has begun by t, and no recovery confirmed after k came by t. */
  ghost predicate OutageFrom(h: seq<Observation>, k: int, t: int)
    requires 0 <= k < |h|
  {
    RunStart(h[..k + 1]) <= t && forall r :: k < r < |h| && RecoveryConfirmed(h, r) ==> t < h[r].at
  }

  /** The history has the monitor down in the second t. */
  ghost predicate OutageAt(h: seq<Observation>, t: int) {
    exists k :: Opening(h, k) && OutageFrom(h, k, t)
  }

  /** A told incident covers the seconds from its run's start to the recoveries after it. */
  lemma ToldCovers(x: Incident, h: seq<Observation>, k: int, t: int)
    requires 0 <= k < |h| && TimesAscend(h) && Tells(x, h, k)
    ensures Covers(PeriodOf(x), t) <==> OutageFrom(h, k, t)
  {
    if x.resolvedAt.Some? {
      var r :| FirstRecovery(h, k, r) && h[r].at == x.resolvedAt.value;
      forall q | k < q < |h| && RecoveryConfirmed(h, q)
        ensures h[r].at <= h[q].at
      {
        assert !(q < r);
      }
    }
  }

  lemma IncidentCovers(monitor: int, h: seq<Observation>, p: nat, t: int)
    requires SaneThresholds(h) && TimesAscend(h) && p < |Openings(h)|
    ensures |Openings(h)| == |IncidentsFrom(monitor, h)|
    ensures Covers(PeriodOf(IncidentsFrom(monitor, h)[p]), t) <==> OutageFrom(h, Openings(h)[p], t)
  {
    IncidentTold(monitor, h, p);
    ToldCovers(IncidentsFrom(monitor, h)[p], h, Openings(h)[p], t);
  }

  /** The stored incidents cover exactly the seconds the history has the monitor down. */
  lemma CoveredIffOutage(incidents: map<int, Incident>, monitor: int, h: seq<Observation>, t: int)
    requires SaneThresholds(h) && TimesAscend(h) && Accounts(incidents, monitor, IncidentsFrom(monitor, h))
    ensures Overview.DownAt(incidents, monitor, t) <==> OutageAt(h, t)
  {
    var xs, ks := IncidentsFrom(monitor, h), Openings(h);
    AsManyAsOpenings(monitor, h);
    LastIsOpenWhileDown(monitor, h);
    var ids :| StoredAs(incidents, monitor, xs, ids);
    forall p | 0 <= p < |ids|
      ensures Covers(PeriodOf(incidents[ids[p]]), t) <==> OutageFrom(h, ks[p], t)
    {
      IncidentCovers(monitor, h, p, t);
    }
    CoveringIncident(incidents, monitor, ids, t);
    if p :| 0 <= p < |ids| && Covers(PeriodOf(incidents[ids[p]]), t) {
      OpeningsComplete(h, ks[p]);
    }
    if k :| Opening(h, k) && OutageFrom(h, k, t) {
      OpeningsComplete(h, k);
      var p :| 0 <= p < |ks| && ks[p] == k;
      assert Covers(PeriodOf(incidents[ids[p]]), t);
    }
  }

  /** How many seconds of [from, until) the history has the monitor down. */
  ghost function OutageSeconds(h: seq<Observation>, from: int, until: int): nat
    decreases until - from
  {
    if from >= until then 0 else OutageSeconds(h, from, until - 1) + if OutageAt(h, until - 1) then 1 else 0
  }

  /** So the stored incidents cover exactly as many seconds as the history has the monitor down. */
  lemma {:induction false} DownSecondsAreOutage(
    incidents: map<int, Incident>, monitor: int, h: seq<Observation>, from: int, until: int)
    requires SaneThresholds(h) && TimesAscend(h) && Accounts(incidents, monitor, IncidentsFrom(monitor, h))
    ensures Overview.DownSeconds(incidents, monitor, from, until) == OutageSeconds(h, from, until)
    decreases until - from
  {
    if from < until {
      DownSecondsAreOutage(incidents, monitor, h, from, until - 1);
      CoveredIffOutage(incidents, monitor, h, until - 1);
    }
  }

  lemma CoveringIncident(incidents: map<int, Incident>, monitor: int, ids: seq<int>, t: int)
    requires forall p :: 0 <= p < |ids| ==> ids[p] in incidents && incidents[ids[p]].monitor == monitor
    requires forall i :: i in incidents && incidents[i].monitor == monitor ==> i in ids
    ensures Overview.DownAt(incidents, monitor, t) <==>
            exists p :: 0 <= p < |ids| && Covers(PeriodOf(incidents[ids[p]]), t)
  {
    if Overview.DownAt(incidents, monitor, t) {
      var i :| i in incidents && incidents[i].monitor == monitor && Covers(PeriodOf(incidents[i]), t);
      var p :| 0 <= p < |ids| && ids[p] == i;
      assert Covers(PeriodOf(incidents[ids[p]]), t);
    }
    if p :| 0 <= p < |ids| && Covers(PeriodOf(incidents[ids[p]]), t) {
      var i := ids[p];
      assert i in incidents && incidents[i].monitor == monitor && Covers(PeriodOf(incidents[i]), t);
      assert Overview.DownAt(incidents, monitor, t);
    }
  }
}
