/** A dashboard snapshot, from the stored rows to the figures shown. */
module Snapshot {
  import opened Rows
  import opened Schema
  import opened Buckets
  import opened Rollups
  import opened Dashboard
  import opened OrderStatistics
  import opened WindowPercentiles

  datatype Provider = Provider(
    total: int,
    healthy: int,
    slowest: int,
    p50: Option<int>,
    p95: Option<int>,
    series: seq<Slot>)

  datatype Response = Response(providers: seq<Provider>, checksToday: int)

  // ----- What the figures mean -----

  /** Counts and the slowest check are those of the raw checks in [from, until). */
  ghost predicate CountsExact(p: Provider, checks: seq<Check>, monitor: int, from: int, until: int) {
    && p.total == Count(checks, InWindow(monitor, from, until))
    && p.healthy == Count(checks, Both(InWindow(monitor, from, until), IsHealthy()))
    && p.slowest == Longest(checks, InWindow(monitor, from, until))
  }

  /** The estimates are there whenever there are checks, in order, and within their shares of the raw latencies. */
  ghost predicate EstimatesSound(p: Provider, checks: seq<Check>, monitor: int, from: int, until: int) {
    if p.total == 0 then p.p50 == None && p.p95 == None
    else
      && p.p50.Some? && p.p95.Some?
      && p.p50.value <= p.p95.value <= p.slowest
      && WithinShares(50, p.p50.value, checks, monitor, from, until)
      && WithinShares(95, p.p95.value, checks, monitor, from, until)
  }

  /** Some stored incident of the monitor opened before now overlaps the bucket. */
  ghost predicate OutageIn(incidents: map<int, Incident>, monitor: int, now: int, start: int, width: int) {
    exists i :: i in incidents && incidents[i].monitor == monitor && incidents[i].openedAt < now
                && Overlaps(PeriodOf(incidents[i]), start, width)
  }

  /** A percentile of the raw latencies of a bucket; None exactly when it has no completed check. */
  ghost predicate PercentileExact(v: Option<int>, k: int, checks: seq<Check>, monitor: int, from: int, until: int) {
    var rows := Keep(checks, InWindow(monitor, from, until));
    match v
    case None => rows == []
    case Some(p) => HasRank(Durations(rows), p, Rank(k, |rows|))
  }

  /**
   * One slot for a bucket, with the counts and percentiles of the raw checks in it. It is an outage exactly when
   * an incident overlaps it, and otherwise fine exactly when it has a completed check.
   */
  ghost predicate SlotExact(
    slot: Slot, checks: seq<Check>, incidents: map<int, Incident>, monitor: int, now: int, start: int, width: int)
  {
    && slot.start == start
    && slot.total == Count(checks, InWindow(monitor, start, start + width))
    && slot.healthy == Count(checks, Both(InWindow(monitor, start, start + width), IsHealthy()))
    && PercentileExact(slot.p50, 50, checks, monitor, start, start + width)
    && PercentileExact(slot.p95, 95, checks, monitor, start, start + width)
    && slot.state == (if OutageIn(incidents, monitor, now, start, width) then Outage
                      else if slot.total > 0 then Fine else Quiet)
  }

  ghost predicate SeriesExact(
    series: seq<Slot>, checks: seq<Check>, incidents: map<int, Incident>, monitor: int, spec: Range, first: int,
    now: int)
  {
    && |series| == spec.points
    && forall i :: 0 <= i < |series| ==>
         SlotExact(series[i], checks, incidents, monitor, now, first + i * spec.width, spec.width)
  }

  ghost predicate ProviderExact(
    p: Provider, checks: seq<Check>, incidents: map<int, Incident>, monitor: int, spec: Range, w: Window, now: int)
  {
    && CountsExact(p, checks, monitor, w.first, w.last + spec.width)
    && EstimatesSound(p, checks, monitor, w.first, w.last + spec.width)
    && SeriesExact(p.series, checks, incidents, monitor, spec, w.first, now)
  }

  ghost function ExactFor(
    checks: seq<Check>, incidents: map<int, Incident>, spec: Range, w: Window, now: int): (Provider, int) -> bool
  {
    (p: Provider, monitor: int) => ProviderExact(p, checks, incidents, monitor, spec, w, now)
  }

  lemma PartsMakeExact(
    p: Provider, series: seq<Slot>, checks: seq<Check>, incidents: map<int, Incident>, monitor: int, spec: Range,
    w: Window, now: int)
    requires CountsExact(p, checks, monitor, w.first, w.last + spec.width)
    requires EstimatesSound(p, checks, monitor, w.first, w.last + spec.width)
    requires SeriesExact(series, checks, incidents, monitor, spec, w.first, now)
    ensures ExactFor(checks, incidents, spec, w, now)(p.(series := series), monitor)
  {
  }

  /** Two lists of the same length, related element by element. */
  ghost predicate Pairwise<T(!new), U(!new)>(related: (T, U) -> bool, ts: seq<T>, us: seq<U>) {
    |ts| == |us| && forall i :: 0 <= i < |ts| ==> related(ts[i], us[i])
  }

  lemma PairwiseSnoc<T(!new), U(!new)>(related: (T, U) -> bool, ts: seq<T>, t: T, us: seq<U>, n: nat)
    requires n < |us| && Pairwise(related, ts, us[..n]) && related(t, us[n])
    ensures Pairwise(related, ts + [t], us[..n + 1])
  {
  }

  // ----- The incidents of the window -----

  /** The query's filter: opened before now and not resolved by the start of the window. */
  predicate InQuery(x: Incident, monitor: int, now: int, windowStart: int) {
    x.monitor == monitor && x.openedAt < now && (x.resolvedAt == None || x.resolvedAt.value > windowStart)
  }

  /** One monitor's rows of the incident query, as periods in no particular order. */
  method IncidentsOfWindow(incidents: map<int, Incident>, monitor: int, now: int, windowStart: int)
    returns (periods: seq<Period>)
    ensures forall p :: p in periods <==>
              exists i ::
                i in incidents && InQuery(incidents[i], monitor, now, windowStart) && p == PeriodOf(incidents[i])
  {
    var selected := set i | i in incidents && InQuery(incidents[i], monitor, now, windowStart);
    var rest := selected;
    periods := [];
    while rest != {}
      invariant rest <= selected
      invariant forall p :: p in periods <==> exists i :: i in selected && i !in rest && p == PeriodOf(incidents[i])
      decreases rest
    {
      assert (forall i :: i !in rest) ==> rest == {};
      var i :| i in rest;
      AddedPeriod(incidents, periods, selected, rest, i);
      periods := periods + [PeriodOf(incidents[i])];
      rest := rest - {i};
    }
  }

  lemma AddedPeriod(
    incidents: map<int, Incident>, periods: seq<Period>, selected: set<int>, rest: set<int>, added: int)
    requires added in rest && rest <= selected && selected <= incidents.Keys
    requires forall p :: p in periods <==> exists i :: i in selected && i !in rest && p == PeriodOf(incidents[i])
    ensures forall p :: p in periods + [PeriodOf(incidents[added])] <==>
              exists i :: i in selected && i !in rest - {added} && p == PeriodOf(incidents[i])
  {
    forall p
      ensures p in periods + [PeriodOf(incidents[added])] <==>
              exists i :: i in selected && i !in rest - {added} && p == PeriodOf(incidents[i])
    {
      if p == PeriodOf(incidents[added]) {
        assert added in selected && added !in rest - {added};
      }
    }
  }

  /** The filter loses no incident that overlaps a bucket of the window. */
  lemma FilterLosesNothing(
    periods: seq<Period>, incidents: map<int, Incident>, monitor: int, now: int, windowStart: int, start: int,
    width: int)
    requires start >= windowStart
    requires forall p :: p in periods <==>
               exists i ::
                 i in incidents && InQuery(incidents[i], monitor, now, windowStart) && p == PeriodOf(incidents[i])
    ensures (exists p :: p in periods && Overlaps(p, start, width)) <==> OutageIn(incidents, monitor, now, start, width)
  {
    if OutageIn(incidents, monitor, now, start, width) {
      var i :| i in incidents && incidents[i].monitor == monitor && incidents[i].openedAt < now
               && Overlaps(PeriodOf(incidents[i]), start, width);
      assert InQuery(incidents[i], monitor, now, windowStart);
      assert PeriodOf(incidents[i]) in periods;
    }
  }

  // ----- One provider -----

  /** The timeline of one provider: the dense series with the incidents laid over it. */
  method Timeline(
    points: seq<Point>, incidents: map<int, Incident>, ghost rollups: map<Key, Rollup>, ghost checks: seq<Check>,
    monitor: int, spec: Range, w: Window, now: int)
    returns (series: seq<Slot>)
    requires Agrees(rollups, checks) && Shaped(w, spec, now)
    requires points == PointsFrom(rollups, monitor, spec.width, w.first, w.last)
    ensures SeriesExact(series, checks, incidents, monitor, spec, w.first, now)
  {
    var dense := SeriesFromRollups(points, w.first, w.last, spec.width, spec.points);
    var periods := IncidentsOfWindow(incidents, monitor, now, w.first);
    var slots := new Slot[|dense|](i requires 0 <= i < |dense| => dense[i]);
    OverlayIncidentStates(slots, periods, spec.width);
    series := slots[..];
    SlotsAreDense(StoredBy(points), w.first, spec.points, spec.width);
    forall i | 0 <= i < |series|
      ensures SlotExact(series[i], checks, incidents, monitor, now, w.first + i * spec.width, spec.width)
    {
      OverlaidSlot(rollups, incidents, checks, monitor, spec, w, now, periods, i, series[i]);
    }
  }

  /** One slot after the overlay. */
  lemma OverlaidSlot(
    rollups: map<Key, Rollup>, incidents: map<int, Incident>, checks: seq<Check>, monitor: int, spec: Range, w: Window,
    now: int, periods: seq<Period>, i: nat, slot: Slot)
    requires Agrees(rollups, checks) && Shaped(w, spec, now) && i < spec.points
    requires forall p :: p in periods <==>
               exists j :: j in incidents && InQuery(incidents[j], monitor, now, w.first) && p == PeriodOf(incidents[j])
    requires var start := w.first + i * spec.width;
      var dense := SlotAt(StoredBy(PointsFrom(rollups, monitor, spec.width, w.first, w.last)), start);
      slot == if exists p :: p in periods && Overlaps(p, start, spec.width) then dense.(state := Outage) else dense
    ensures SlotExact(slot, checks, incidents, monitor, now, w.first + i * spec.width, spec.width)
  {
    assert 0 <= i * spec.width;
    SlotIsRaw(rollups, checks, monitor, spec, w, now, i);
    FilterLosesNothing(periods, incidents, monitor, now, w.first, w.first + i * spec.width, spec.width);
  }

  /** The percentiles stored for a bucket are those of its raw latencies. */
  lemma StoredPercentiles(rollups: map<Key, Rollup>, checks: seq<Check>, key: Key)
    requires Agrees(rollups, checks) && IsBucket(key)
    ensures PercentileExact(if key in rollups then rollups[key].p50 else None, 50, checks, key.monitor, key.start,
                            key.start + key.width)
    ensures PercentileExact(if key in rollups then rollups[key].p95 else None, 95, checks, key.monitor, key.start,
                            key.start + key.width)
  {
    assert RowAgrees(rollups, checks, key);
    if key in rollups {
      var durations := Durations(BucketRows(checks, key));
      DurationsMember(BucketRows(checks, key));
      NearestRankMonotone(durations, 50, 95);
      NearestRankExact(durations, 50, NearestRank(durations, 50).value);
      NearestRankExact(durations, 95, NearestRank(durations, 95).value);
    }
  }

  /** Before the overlay a slot shows the raw checks of its bucket, and is not an outage. */
  lemma SlotIsRaw(
    rollups: map<Key, Rollup>, checks: seq<Check>, monitor: int, spec: Range, w: Window, now: int, i: nat)
    requires Agrees(rollups, checks) && Shaped(w, spec, now) && i < spec.points
    ensures var start := w.first + i * spec.width;
      var slot := SlotAt(StoredBy(PointsFrom(rollups, monitor, spec.width, w.first, w.last)), start);
      && slot.start == start
      && slot.state == (if slot.total > 0 then Fine else Quiet)
      && slot.total == Count(checks, InWindow(monitor, start, start + spec.width))
      && slot.healthy == Count(checks, Both(InWindow(monitor, start, start + spec.width), IsHealthy()))
      && PercentileExact(slot.p50, 50, checks, monitor, start, start + spec.width)
      && PercentileExact(slot.p95, 95, checks, monitor, start, start + spec.width)
  {
    var start := w.first + i * spec.width;
    StepsAreAligned(w.last, spec.points - 1 - i, spec.width);
    assert start == w.last - (spec.points - 1 - i) * spec.width;
    assert 0 <= i * spec.width <= (spec.points - 1) * spec.width;
    SlotShowsRow(rollups, checks, monitor, spec.width, w.first, w.last, start);
    BucketTotals(rollups, checks, Key(monitor, spec.width, start));
    StoredPercentiles(rollups, checks, Key(monitor, spec.width, start));
  }

  /** The two percentile estimates of one provider. */
  method Estimates(points: seq<Point>, total: int) returns (p50: Option<int>, p95: Option<int>)
    requires total == Weight(Samples(points, 50), Any()) == Weight(Samples(points, 95), Any())
    ensures if total == 0 then p50 == None && p95 == None
            else && p50.Some? && HasWeightedRank(Samples(points, 50), p50.value, Rank(50, total))
                 && p95.Some? && HasWeightedRank(Samples(points, 95), p95.value, Rank(95, total))
  {
    p50, p95 := None, None;
    SamplesCarryWeight(points, 50);
    SamplesCarryWeight(points, 95);
    if total > 0 {
      p50 := WeightedPercentile(points, 50);
      p95 := WeightedPercentile(points, 95);
    }
  }

  /** The figures computed from the points of a window are those of the raw checks. */
  lemma FiguresExact(
    rollups: map<Key, Rollup>, checks: seq<Check>, monitor: int, width: int, first: int, last: int, p: Provider)
    requires Agrees(rollups, checks) && width in WIDTHS
    requires Aligned(first, width) && Aligned(last, width) && first <= last + width
    requires var points := PointsFrom(rollups, monitor, width, first, last);
      && p.total == TotalOf(points) && p.healthy == HealthyOf(points) && p.slowest == SlowestOf(points)
      && if p.total == 0 then p.p50 == None && p.p95 == None
         else && p.p50.Some? && HasWeightedRank(Samples(points, 50), p.p50.value, Rank(50, p.total))
              && p.p95.Some? && HasWeightedRank(Samples(points, 95), p.p95.value, Rank(95, p.total))
    ensures CountsExact(p, checks, monitor, first, last + width)
    ensures EstimatesSound(p, checks, monitor, first, last + width)
  {
    TotalsExact(rollups, checks, monitor, width, first, last);
    if p.total != 0 {
      WeightIsTotal(rollups, checks, monitor, width, first, last, 50);
      WeightIsTotal(rollups, checks, monitor, width, first, last, 95);
      EstimateWithinShares(rollups, checks, monitor, width, first, last, 50, p.p50.value);
      EstimateWithinShares(rollups, checks, monitor, width, first, last, 95, p.p95.value);
      ProviderFiguresOrdered(rollups, checks, monitor, width, first, last, p.p50.value, p.p95.value);
    }
  }

  /** The figures of one provider, still without its timeline. */
  method Figures(
    points: seq<Point>, ghost rollups: map<Key, Rollup>, ghost checks: seq<Check>, monitor: int, width: int, first: int,
    last: int, midnight: int, counted: int)
    returns (p: Provider, today: int)
    requires Agrees(rollups, checks) && width in WIDTHS
    requires Aligned(first, width) && Aligned(last, width) && first <= last + width
    requires points == PointsFrom(rollups, monitor, width, first, last)
    ensures CountsExact(p, checks, monitor, first, last + width)
    ensures EstimatesSound(p, checks, monitor, first, last + width)
    ensures today == counted + TotalSince(points, midnight)
  {
    var total, healthy, slowest: int;
    total, healthy, slowest, today := Aggregate(points, midnight, counted);
    WeightIsTotal(rollups, checks, monitor, width, first, last, 50);
    WeightIsTotal(rollups, checks, monitor, width, first, last, 95);
    var p50, p95 := Estimates(points, total);
    p := Provider(total, healthy, slowest, p50, p95, []);
    FiguresExact(rollups, checks, monitor, width, first, last, p);
  }

  /** A provider's figures and its share of today's checks, added to those of the providers before it. */
  method ProviderSnapshot(
    rollups: map<Key, Rollup>, incidents: map<int, Incident>, ghost checks: seq<Check>, monitor: int, spec: Range,
    w: Window, now: int, counted: int)
    returns (p: Provider, today: int)
    requires Agrees(rollups, checks) && Shaped(w, spec, now)
    ensures ExactFor(checks, incidents, spec, w, now)(p, monitor)
    ensures today == counted + TotalSince(PointsFrom(rollups, monitor, spec.width, w.first, w.last), Midnight(now))
  {
    var points := PointsFrom(rollups, monitor, spec.width, w.first, w.last);
    var series := Timeline(points, incidents, rollups, checks, monitor, spec, w, now);
    p, today := Figures(points, rollups, checks, monitor, spec.width, w.first, w.last, Midnight(now), counted);
    PartsMakeExact(p, series, checks, incidents, monitor, spec, w, now);
    p := p.(series := series);
  }

  /**
   * The snapshot of all monitors, read from the rollups and the incidents alone. Over a cache in agreement
   * every figure is that of the raw checks, and today's checks are counted over all providers.
   */
  method DashboardSnapshot(
    rollups: map<Key, Rollup>, incidents: map<int, Incident>, ghost checks: seq<Check>, monitors: seq<int>, spec: Range,
    now: int)
    returns (r: Response)
    requires Agrees(rollups, checks) && spec in RANGES
    requires Distinct(monitors) && forall c :: c in checks ==> c.monitor in monitors
    ensures Pairwise(ExactFor(checks, incidents, spec, WindowOf(spec, now), now), r.providers, monitors)
    ensures r.checksToday == Count(checks, CompletedIn(Midnight(now), WindowOf(spec, now).last + spec.width))
  {
    var w := WindowOf(spec, now);
    MidnightInWindow(spec, now);
    WindowShape(spec, now);
    var providers: seq<Provider>, today := [], 0;
    ghost var exact := ExactFor(checks, incidents, spec, w, now);
    for n := 0 to |monitors|
      invariant Pairwise(exact, providers, monitors[..n])
      invariant today == ChecksToday(rollups, monitors[..n], spec, now)
    {
      var provider: Provider;
      provider, today := ProviderSnapshot(rollups, incidents, checks, monitors[n], spec, w, now, today);
      PairwiseSnoc(exact, providers, provider, monitors, n);
      assert monitors[..n + 1][..n] == monitors[..n];
      providers := providers + [provider];
    }
    assert monitors[..|monitors|] == monitors;
    ChecksTodayExact(rollups, checks, monitors, spec, now);
    r := Response(providers, today);
  }
}
