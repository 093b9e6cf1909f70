/** The overview's coverage and availability figures against a scan of the raw rows. */
module Overview {
  import opened Rows
  import opened Schema
  import opened Buckets
  import opened Rollups
  import opened HistoryTables

  // ----- Coverage -----

  /** Completed checks of a monitor at or after a time. */
  function CompletedFrom(monitor: int, from: int): Check -> bool {
    (c: Check) => Completed(c) && c.monitor == monitor && c.checkedAt >= from
  }

  /** The provider refused the credentials: what coverage leaves out, and nothing else. */
  function AuthFailures(monitor: int, cutoff: int): Check -> bool {
    (c: Check) => c.source == Authenticated && c.state == AuthFailed && c.monitor == monitor && c.checkedAt >= cutoff
  }

  /** Completed checks that snap into one of a set of eight-hour buckets. */
  function InBuckets(keys: set<Key>): Check -> bool {
    (c: Check) => Completed(c) && KeyOf(c, EIGHT_HOURS) in keys
  }

  /** The rows the coverage query sums: whole buckets past the one the cutoff falls in. */
  predicate Summed(k: Key, monitor: int, from: int) {
    k.monitor == monitor && k.width == EIGHT_HOURS && k.start >= from
  }

  lemma CoveredOrDone(c: Check, done: set<Key>, more: set<Key>, k: Key)
    requires IsBucket(k) && k.width == EIGHT_HOURS
    requires k !in done && forall x :: x in more <==> x in done || x == k
    ensures var covered := InWindow(k.monitor, k.start, k.start + k.width);
      InBuckets(more)(c) == (InBuckets(done)(c) || covered(c)) && !(InBuckets(done)(c) && covered(c))
  {
    CoversIffKeyOf(c, k);
  }

  lemma StoredCounts(rollups: map<Key, Rollup>, checks: seq<Check>, k: Key, covered: Check -> bool)
    requires RowAgrees(rollups, checks, k) && k in rollups && covered == InWindow(k.monitor, k.start, k.start + k.width)
    ensures rollups[k].total == Count(checks, covered)
    ensures rollups[k].eligible == Count(checks, Both(covered, IsEligible()))
  {
    KeepLength(checks, covered);
    KeepKeep(checks, covered, IsEligible());
  }

  lemma OneMoreBucket(rollups: map<Key, Rollup>, checks: seq<Check>, done: set<Key>, more: set<Key>, k: Key)
    requires Agrees(rollups, checks) && k in rollups && k.width == EIGHT_HOURS
    requires k !in done && forall x :: x in more <==> x in done || x == k
    ensures Count(checks, InBuckets(more)) == Count(checks, InBuckets(done)) + rollups[k].total
    ensures Count(checks, Both(InBuckets(more), IsEligible())) ==
            Count(checks, Both(InBuckets(done), IsEligible())) + rollups[k].eligible
  {
    assert RowAgrees(rollups, checks, k);
    var covered := InWindow(k.monitor, k.start, k.start + k.width);
    StoredCounts(rollups, checks, k, covered);
    forall c | c in checks
      ensures InBuckets(more)(c) == (InBuckets(done)(c) || covered(c)) && !(InBuckets(done)(c) && covered(c))
    {
      CoveredOrDone(c, done, more, k);
    }
    SplitBoth(checks, InBuckets(more), InBuckets(done), covered);
  }

  lemma SplitBoth(checks: seq<Check>, whole: Check -> bool, left: Check -> bool, right: Check -> bool)
    requires forall c :: c in checks ==> whole(c) == (left(c) || right(c)) && !(left(c) && right(c))
    ensures Count(checks, whole) == Count(checks, left) + Count(checks, right)
    ensures Count(checks, Both(whole, IsEligible())) ==
            Count(checks, Both(left, IsEligible())) + Count(checks, Both(right, IsEligible()))
  {
  }

  /** Every completed check from a bucket boundary on lies in exactly one of the summed rows. */
  lemma SummedRowsCoverTheRest(rollups: map<Key, Rollup>, checks: seq<Check>, monitor: int, from: int, keys: set<Key>)
    requires Agrees(rollups, checks) && Aligned(from, EIGHT_HOURS)
    requires forall k :: k in keys <==> k in rollups && Summed(k, monitor, from)
    ensures Count(checks, InBuckets(keys)) == Count(checks, CompletedFrom(monitor, from))
    ensures Count(checks, Both(InBuckets(keys), IsEligible())) ==
            Count(checks, Both(CompletedFrom(monitor, from), IsEligible()))
  {
    forall c | c in checks
      ensures InBuckets(keys)(c) == CompletedFrom(monitor, from)(c)
    {
      if Completed(c) {
        var k := KeyOf(c, EIGHT_HOURS);
        KeyIsBucket(c, EIGHT_HOURS);
        CoversIffKeyOf(c, k);
        assert RowAgrees(rollups, checks, k);
        KeepMember(checks, InWindow(k.monitor, k.start, k.start + k.width), c);
        BucketContains(c.checkedAt, EIGHT_HOURS);
        AlignedApart(k.start, from, EIGHT_HOURS);
      }
    }
    KeepSame(checks, InBuckets(keys), CompletedFrom(monitor, from));
    KeepSame(checks, Both(InBuckets(keys), IsEligible()), Both(CompletedFrom(monitor, from), IsEligible()));
  }

  /** The rows SUM(total), SUM(eligible) reads, in whatever order. */
  method SumBuckets(rollups: map<Key, Rollup>, ghost checks: seq<Check>, monitor: int, from: int)
    returns (total: int, eligible: int)
    requires Agrees(rollups, checks) && Aligned(from, EIGHT_HOURS)
    ensures total == Count(checks, CompletedFrom(monitor, from))
    ensures eligible == Count(checks, Both(CompletedFrom(monitor, from), IsEligible()))
  {
    var rest := set k | k in rollups && Summed(k, monitor, from);
    ghost var all, done := rest, {};
    total, eligible := 0, 0;
    KeepNone(checks, InBuckets({}));
    KeepNone(checks, Both(InBuckets({}), IsEligible()));
    while rest != {}
      invariant done + rest == all && done !! rest
      invariant total == Count(checks, InBuckets(done))
      invariant eligible == Count(checks, Both(InBuckets(done), IsEligible()))
      decreases rest
    {
      assert (forall k :: k !in rest) ==> rest == {};
      var k :| k in rest;
      OneMoreBucket(rollups, checks, done, done + {k}, k);
      total := total + rollups[k].total;
      eligible := eligible + rollups[k].eligible;
      rest := rest - {k};
      done := done + {k};
    }
    assert done == all;
    SummedRowsCoverTheRest(rollups, checks, monitor, from, all);
  }

  /**
   * Coverage: stored buckets past the cutoff's own bucket plus the raw rows of that partial bucket, read by
   * two queries in no transaction. The first counts the checks stored when it runs, the second those stored
   * later; over one state the sums are the exact counts of all raw checks at or after any cutoff.
   */
  method Coverage(
    rollups: map<Key, Rollup>, ghost checks: seq<Check>, later: seq<Check>, monitor: int, cutoff: int)
    returns (total: int, eligible: int)
    requires Agrees(rollups, checks)
    ensures var from := BucketStartFor(cutoff, EIGHT_HOURS) + EIGHT_HOURS;
      && total == Count(checks, CompletedFrom(monitor, from)) + Count(later, InWindow(monitor, cutoff, from))
      && eligible == Count(checks, Both(CompletedFrom(monitor, from), IsEligible()))
                     + Count(later, Both(InWindow(monitor, cutoff, from), IsEligible()))
    ensures later == checks ==> total == Count(checks, CompletedFrom(monitor, cutoff))
    ensures later == checks ==> eligible == Count(checks, Both(CompletedFrom(monitor, cutoff), IsEligible()))
    ensures later == checks ==> total - eligible == Count(checks, AuthFailures(monitor, cutoff))
  {
    var from := BucketStartFor(cutoff, EIGHT_HOURS) + EIGHT_HOURS;
    BucketContains(cutoff, EIGHT_HOURS);
    var bucketTotal, bucketEligible := SumBuckets(rollups, checks, monitor, from);
    var partial := InWindow(monitor, cutoff, from);
    SplitBoth(checks, CompletedFrom(monitor, cutoff), partial, CompletedFrom(monitor, from));
    CountSplit(checks, CompletedFrom(monitor, cutoff), Both(CompletedFrom(monitor, cutoff), IsEligible()),
               AuthFailures(monitor, cutoff));
    total := Count(later, partial) + bucketTotal;
    eligible := Count(later, Both(partial, IsEligible())) + bucketEligible;
  }

  // ----- Availability -----

  /** An incident as the overview passes it on: a resolvedAt of 0 stands for an unresolved incident. */
  datatype IncidentPeriod = IncidentPeriod(openedAt: int, resolvedAt: int)

  /** A fraction of the observed seconds. */
  datatype Share = Share(up: int, observed: int)

  function Meant(p: IncidentPeriod): Period {
    Period(p.openedAt, if p.resolvedAt == 0 then None else Some(p.resolvedAt))
  }

  /** How many seconds of [from, until) some listed incident covers. */
  ghost function SecondsCovered(periods: seq<IncidentPeriod>, from: int, until: int): nat
    decreases until - from
  {
    if from >= until then 0
    else SecondsCovered(periods, from, until - 1) + if CoveredBy(periods, until - 1) then 1 else 0
  }

  ghost predicate CoveredBy(periods: seq<IncidentPeriod>, t: int) {
    exists p :: p in periods && Covers(Meant(p), t)
  }

  /** How many seconds of [from, until) some incident of the monitor covers. */
  ghost function DownSeconds(incidents: map<int, Incident>, monitor: int, from: int, until: int): nat
    decreases until - from
  {
    if from >= until then 0
    else DownSeconds(incidents, monitor, from, until - 1) + if DownAt(incidents, monitor, until - 1) then 1 else 0
  }

  ghost predicate DownAt(incidents: map<int, Incident>, monitor: int, t: int) {
    exists i :: i in incidents && incidents[i].monitor == monitor && Covers(PeriodOf(incidents[i]), t)
  }

  ghost predicate Disjoint(periods: seq<IncidentPeriod>) {
    forall i, j, t :: 0 <= i < j < |periods| && Covers(Meant(periods[i]), t) ==> !Covers(Meant(periods[j]), t)
  }

  /** The part of a period inside [from, until), as the availability loop computes it. */
  function Clipped(p: IncidentPeriod, from: int, until: int): int {
    var start := if p.openedAt > from then p.openedAt else from;
    var end := if p.resolvedAt == 0 || p.resolvedAt > until then until else p.resolvedAt;
    if end > start then end - start else 0
  }

  lemma {:induction false} ClippedIsSeconds(p: IncidentPeriod, from: int, until: int)
    requires from <= until
    ensures SecondsCovered([p], from, until) == Clipped(p, from, until)
    decreases until - from
  {
    if from < until {
      ClippedIsSeconds(p, from, until - 1);
      assert CoveredBy([p], until - 1) <==> Covers(Meant(p), until - 1) by {
        assert p in [p];
      }
    }
  }

  lemma {:induction false} SecondsAdd(periods: seq<IncidentPeriod>, p: IncidentPeriod, from: int, until: int)
    requires Disjoint(periods + [p])
    ensures SecondsCovered(periods + [p], from, until) ==
            SecondsCovered(periods, from, until) + SecondsCovered([p], from, until)
    decreases until - from
  {
    if from < until {
      var t := until - 1;
      SecondsAdd(periods, p, from, t);
      assert p in periods + [p] && p in [p];
      if CoveredBy(periods, t) {
        var q :| q in periods && Covers(Meant(q), t);
        var i :| 0 <= i < |periods| && periods[i] == q;
        assert (periods + [p])[i] == q && (periods + [p])[|periods|] == p;
        assert q in periods + [p];
      }
      assert CoveredBy(periods + [p], t) <==> CoveredBy(periods, t) || Covers(Meant(p), t);
      assert CoveredBy([p], t) <==> Covers(Meant(p), t);
    }
  }

  lemma {:induction false} SecondsBounded(periods: seq<IncidentPeriod>, from: int, until: int)
    ensures from <= until ==> SecondsCovered(periods, from, until) <= until - from
    decreases until - from
  {
    if from < until {
      SecondsBounded(periods, from, until - 1);
    }
  }

  lemma {:induction false} NothingCovered(from: int, until: int)
    ensures SecondsCovered([], from, until) == 0
    decreases until - from
  {
    if from < until {
      NothingCovered(from, until - 1);
    }
  }

  /** The downtime the loop sums, before its cap. */
  function Downtime(periods: seq<IncidentPeriod>, from: int, until: int): int {
    if periods == [] then 0
    else Downtime(periods[..|periods| - 1], from, until) + Clipped(periods[|periods| - 1], from, until)
  }

  /** For incidents that never overlap, the summed downtime is the number of seconds they cover; the cap is idle. */
  lemma {:induction false} DowntimeIsSeconds(periods: seq<IncidentPeriod>, from: int, until: int)
    requires Disjoint(periods) && from <= until
    ensures Downtime(periods, from, until) == SecondsCovered(periods, from, until) <= until - from
  {
    SecondsBounded(periods, from, until);
    if periods == [] {
      NothingCovered(from, until);
    } else {
      var init, last := periods[..|periods| - 1], periods[|periods| - 1];
      assert periods == init + [last];
      DowntimeIsSeconds(init, from, until);
      SecondsAdd(init, last, from, until);
      ClippedIsSeconds(last, from, until);
    }
  }

  /**
   * The availability of a monitor over [observedStart, now). For incidents that never overlap, the
   * downtime it subtracts is exactly the number of seconds they cover, so its cap never applies.
   */
  method ConfirmedAvailability(observedStart: int, now: int, periods: seq<IncidentPeriod>) returns (r: Option<Share>)
    ensures observedStart <= 0 || observedStart > now ==> r == None
    ensures 0 < observedStart == now ==> r == Some(Share(1, 1))
    ensures 0 < observedStart < now ==>
              var observed, down := now - observedStart, Downtime(periods, observedStart, now);
              r == Some(Share(observed - if down > observed then observed else down, observed))
    ensures 0 < observedStart < now && Disjoint(periods) ==>
              r == Some(Share(now - observedStart - SecondsCovered(periods, observedStart, now), now - observedStart))
  {
    if observedStart <= 0 || observedStart > now {
      return None;
    }
    if observedStart == now {
      return Some(Share(1, 1));
    }
    var observedSeconds := now - observedStart;
    var downtimeSeconds := 0;
    for i := 0 to |periods|
      invariant downtimeSeconds == Downtime(periods[..i], observedStart, now)
    {
      var start := if periods[i].openedAt > observedStart then periods[i].openedAt else observedStart;
      var end := periods[i].resolvedAt;
      if end == 0 || end > now {
        end := now;
      }
      if end > start {
        downtimeSeconds := downtimeSeconds + (end - start);
      }
      assert periods[..i + 1] == periods[..i] + [periods[i]];
    }
    assert periods[..|periods|] == periods;
    if downtimeSeconds > observedSeconds {
      downtimeSeconds := observedSeconds;
    }
    if Disjoint(periods) {
      DowntimeIsSeconds(periods, observedStart, now);
    }
    r := Some(Share(observedSeconds - downtimeSeconds, observedSeconds));
  }

  // ----- The incidents the overview selects -----

  /** The query's window and the later filter on the observed part of it. */
  predicate Listed(x: Incident, monitor: int, now: int, cutoff: int, observedStart: int) {
    && x.monitor == monitor
    && x.openedAt < now && (x.resolvedAt == None || x.resolvedAt.value > cutoff)
    && (x.resolvedAt == None || x.resolvedAt.value > observedStart)
  }

  function RowOf(x: Incident): IncidentPeriod {
    IncidentPeriod(x.openedAt, if x.resolvedAt == None then 0 else x.resolvedAt.value)
  }

  /** The listed incidents in some order, each once. */
  ghost predicate Lists(
    periods: seq<IncidentPeriod>, ids: seq<int>, incidents: map<int, Incident>, selected: set<int>) {
    && |periods| == |ids|
    && (forall k :: 0 <= k < |ids| ==>
                      ids[k] in selected && ids[k] in incidents && periods[k] == RowOf(incidents[ids[k]]))
    && (forall k, l :: 0 <= k < l < |ids| ==> ids[k] != ids[l])
    && (forall i :: i in selected ==> i in ids)
  }

  /** Incidents in succession with positive times: what Chronological says of one monitor. */
  ghost predicate InSuccession(incidents: map<int, Incident>, monitor: int) {
    && (forall i :: i in incidents && incidents[i].monitor == monitor ==>
                      && 0 < incidents[i].openedAt
                      && (incidents[i].resolvedAt.Some? ==> incidents[i].openedAt <= incidents[i].resolvedAt.value))
    && (forall i, j :: i in incidents && j in incidents && incidents[j].monitor == monitor ==>
                         Successive(incidents, i, j))
  }

  lemma ChronologicalInSuccession(t: Tables, monitor: int)
    requires Chronological(t)
    ensures InSuccession(t.incidents, monitor)
  {
  }

  /** No second belongs to two incidents of the same monitor. */
  lemma IncidentsDisjoint(incidents: map<int, Incident>, monitor: int, i: int, j: int, t: int)
    requires InSuccession(incidents, monitor) && i != j
    requires i in incidents && j in incidents && incidents[i].monitor == incidents[j].monitor == monitor
    ensures !(Covers(PeriodOf(incidents[i]), t) && Covers(PeriodOf(incidents[j]), t))
  {
  }

  lemma ListedDisjoint(
    periods: seq<IncidentPeriod>, ids: seq<int>, incidents: map<int, Incident>, monitor: int, selected: set<int>)
    requires InSuccession(incidents, monitor) && Lists(periods, ids, incidents, selected)
    requires forall i :: i in selected ==> i in incidents && incidents[i].monitor == monitor
    ensures Disjoint(periods)
  {
  }

  lemma ListedCoverSecond(
    periods: seq<IncidentPeriod>, ids: seq<int>, incidents: map<int, Incident>, monitor: int, selected: set<int>,
    now: int, cutoff: int, observedStart: int, t: int)
    requires InSuccession(incidents, monitor) && Lists(periods, ids, incidents, selected)
    requires cutoff <= observedStart <= t < now
    requires forall i :: i in selected <==> i in incidents && Listed(incidents[i], monitor, now, cutoff, observedStart)
    ensures CoveredBy(periods, t) <==> DownAt(incidents, monitor, t)
  {
    if CoveredBy(periods, t) {
      var p :| p in periods && Covers(Meant(p), t);
      var k :| 0 <= k < |periods| && periods[k] == p;
      assert ids[k] in selected && Covers(PeriodOf(incidents[ids[k]]), t);
    }
    if DownAt(incidents, monitor, t) {
      var i :| i in incidents && incidents[i].monitor == monitor && Covers(PeriodOf(incidents[i]), t);
      assert i in selected && i in ids;
      var k :| 0 <= k < |ids| && ids[k] == i;
      assert periods[k] in periods && Covers(Meant(periods[k]), t);
    }
  }

  /** Incidents left out of the list cover no second of the observed window. */
  lemma {:induction false} ListedCoverAll(
    periods: seq<IncidentPeriod>, ids: seq<int>, incidents: map<int, Incident>, monitor: int, selected: set<int>,
    now: int, cutoff: int, observedStart: int, until: int)
    requires InSuccession(incidents, monitor) && Lists(periods, ids, incidents, selected)
    requires cutoff <= observedStart && until <= now
    requires forall i :: i in selected <==> i in incidents && Listed(incidents[i], monitor, now, cutoff, observedStart)
    ensures SecondsCovered(periods, observedStart, until) == DownSeconds(incidents, monitor, observedStart, until)
    decreases until - observedStart
  {
    if observedStart < until {
      ListedCoverAll(periods, ids, incidents, monitor, selected, now, cutoff, observedStart, until - 1);
      ListedCoverSecond(periods, ids, incidents, monitor, selected, now, cutoff, observedStart, until - 1);
    }
  }

  /** MIN(checked_at) over the monitor's authenticated checks. */
  method FirstCheck(checks: seq<Check>, monitor: int) returns (first: Option<int>)
    ensures first == None <==> forall c :: c in checks && c.source == Authenticated ==> c.monitor != monitor
    ensures first.Some? ==>
              exists c :: c in checks && c.source == Authenticated && c.monitor == monitor && c.checkedAt == first.value
    ensures forall c :: c in checks && c.source == Authenticated && c.monitor == monitor ==>
              first.Some? && first.value <= c.checkedAt
  {
    first := None;
    for i := 0 to |checks|
      invariant first.Some? ==>
                  exists c :: c in checks[..i] && c.source == Authenticated && c.monitor == monitor
                              && c.checkedAt == first.value
      invariant forall c :: c in checks[..i] && c.source == Authenticated && c.monitor == monitor ==>
                  first.Some? && first.value <= c.checkedAt
    {
      assert checks[..i + 1] == checks[..i] + [checks[i]];
      if checks[i].source == Authenticated && checks[i].monitor == monitor
         && (first == None || checks[i].checkedAt < first.value) {
        first := Some(checks[i].checkedAt);
        assert checks[i] in checks[..i + 1];
      }
    }
    assert checks[..|checks|] == checks;
  }

  /** The availability figure of the overview: None without a check, otherwise over the observed window. */
  method OverviewAvailability(checks: seq<Check>, incidents: map<int, Incident>, monitor: int, now: int, cutoff: int)
    returns (r: Option<Share>, observedStart: int)
    requires InSuccession(incidents, monitor)
    ensures (forall c :: c in checks && c.source == Authenticated ==> c.monitor != monitor) ==>
              r == None && observedStart == cutoff
    ensures forall c :: c in checks && c.source == Authenticated && c.monitor == monitor ==>
              && cutoff <= observedStart && (observedStart == cutoff || observedStart <= c.checkedAt)
              && (r.Some? <==> 0 < observedStart <= now)
    ensures observedStart == cutoff
            || exists c :: c in checks && c.source == Authenticated && c.monitor == monitor
                           && c.checkedAt == observedStart
    ensures r.Some? && observedStart == now ==> r.value == Share(1, 1)
    ensures r.Some? && observedStart < now ==>
              var observed := now - observedStart;
              r.value == Share(observed - DownSeconds(incidents, monitor, observedStart, now), observed)
  {
    r, observedStart := None, cutoff;
    var first := FirstCheck(checks, monitor);
    if first == None {
      return;
    }
    observedStart := if first.value > cutoff then first.value else cutoff;
    var selected := set i | i in incidents && Listed(incidents[i], monitor, now, cutoff, observedStart);
    var rest := selected;
    var periods: seq<IncidentPeriod> := [];
    ghost var ids: seq<int> := [];
    while rest != {}
      invariant rest <= selected
      invariant |periods| == |ids|
      invariant forall k :: 0 <= k < |ids| ==>
                  ids[k] in selected && ids[k] !in rest && periods[k] == RowOf(incidents[ids[k]])
      invariant forall k, l :: 0 <= k < l < |ids| ==> ids[k] != ids[l]
      invariant forall i :: i in selected ==> i in rest || i in ids
      decreases rest
    {
      assert (forall i :: i !in rest) ==> rest == {};
      var i :| i in rest;
      periods := periods + [RowOf(incidents[i])];
      ids := ids + [i];
      rest := rest - {i};
    }
    ListedDisjoint(periods, ids, incidents, monitor, selected);
    ListedCoverAll(periods, ids, incidents, monitor, selected, now, cutoff, observedStart, now);
    r := ConfirmedAvailability(observedStart, now, periods);
  }
}
