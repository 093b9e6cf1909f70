/** The dashboard's window of buckets, its totals, its dense series and the incident overlay. */
module Dashboard {
  import opened Rows
  import opened Schema
  import opened Buckets
  import opened OrderStatistics
  import opened Rollups

  /** A dashboard range: the bucket width in seconds and the number of points. */
  datatype Range = Range(width: int, points: int)

  const RANGES: set<Range> := {Range(QUARTER_HOUR, 96), Range(TWO_HOURS, 84), Range(EIGHT_HOURS, 90)}

  datatype Window = Window(first: int, last: int)

  /** The bucket-aligned window of a range: its points end with the bucket being filled at now. */
  function WindowOf(spec: Range, now: int): Window {
    if spec.width <= 0 || spec.points <= 0 then Window(0, 0)
    else
      var last := BucketStartFor(now - 1, spec.width);
      Window(last - (spec.points - 1) * spec.width, last)
  }

  /** The ranges span one, seven and thirty days, in buckets of 15 minutes, two hours and eight hours. */
  lemma RangesSpanDays(spec: Range)
    ensures spec in RANGES <==>
            || (spec.width == 15 * 60 && spec.width * spec.points == 1 * DAY)
            || (spec.width == 2 * 3600 && spec.width * spec.points == 7 * DAY)
            || (spec.width == 8 * 3600 && spec.width * spec.points == 30 * DAY)
  {
  }

  lemma StepsAreAligned(start: int, n: int, width: int)
    requires Aligned(start, width)
    ensures Aligned(start - n * width, width)
  {
    var q := start / width;
    assert start - n * width == (q - n) * width;
    MultipleIsAligned(q - n, width);
  }

  /** The window is aligned and ends with the bucket that holds the second before now. */
  lemma WindowShape(spec: Range, now: int)
    requires spec.width > 0 && spec.points > 0
    ensures var w := WindowOf(spec, now);
      && Aligned(w.first, spec.width) && Aligned(w.last, spec.width)
      && w.last < now <= w.last + spec.width
      && w.first + (spec.points - 1) * spec.width == w.last
  {
    BucketContains(now - 1, spec.width);
    StepsAreAligned(BucketStartFor(now - 1, spec.width), spec.points - 1, spec.width);
  }

  /** What the queries and loops of a snapshot rely on. */
  ghost predicate Shaped(w: Window, spec: Range, now: int) {
    && spec.width in WIDTHS && spec.points > 0
    && Aligned(w.first, spec.width) && Aligned(w.last, spec.width) && w.first <= w.last + spec.width
    && w.first + (spec.points - 1) * spec.width == w.last < now <= w.last + spec.width
  }

  // ----- Stored buckets of one provider in a window -----

  datatype Point = Point(start: int, total: int, healthy: int, slowest: int, p50: Option<int>, p95: Option<int>)

  function PointOf(start: int, row: Rollup): Point {
    Point(start, row.total, row.healthy, row.slowest, row.p50, row.p95)
  }

  /** The rows of one monitor and width with first <= bucket_start <= last, ORDER BY bucket_start. */
  function PointsFrom(rollups: map<Key, Rollup>, monitor: int, width: int, first: int, last: int): seq<Point>
    requires width > 0
    decreases last - first + width
  {
    if first > last then []
    else
      var key := Key(monitor, width, first);
      var rest := PointsFrom(rollups, monitor, width, first + width, last);
      if key in rollups then [PointOf(first, rollups[key])] + rest else rest
  }

  /** Every stored row of the window is selected once, in order of its bucket, and nothing else is. */
  lemma {:induction false} PointsAreTheRows(
    rollups: map<Key, Rollup>, checks: seq<Check>, monitor: int, width: int, first: int, last: int)
    requires Agrees(rollups, checks) && Aligned(first, width)
    ensures var points := PointsFrom(rollups, monitor, width, first, last);
      && (forall i, j :: 0 <= i < j < |points| ==> points[i].start < points[j].start)
      && (forall i :: 0 <= i < |points| ==> first <= points[i].start <= last)
      && (forall p: Point :: p in points <==>
            && first <= p.start <= last && Key(monitor, width, p.start) in rollups
            && p == PointOf(p.start, rollups[Key(monitor, width, p.start)]))
    decreases last - first + width
  {
    if first <= last {
      StepsAreAligned(first, -1, width);
      PointsAreTheRows(rollups, checks, monitor, width, first + width, last);
      var points := PointsFrom(rollups, monitor, width, first, last);
      var rest := PointsFrom(rollups, monitor, width, first + width, last);
      forall p: Point | first <= p.start <= last && Key(monitor, width, p.start) in rollups
                 && p == PointOf(p.start, rollups[Key(monitor, width, p.start)])
        ensures p in points
      {
        assert RowAgrees(rollups, checks, Key(monitor, width, p.start));
        AlignedApart(first, p.start, width);
        assert p.start != first ==> p in rest;
      }
    }
  }

  // ----- Totals -----

  function TotalOf(points: seq<Point>): int {
    if points == [] then 0 else points[0].total + TotalOf(points[1..])
  }

  function HealthyOf(points: seq<Point>): int {
    if points == [] then 0 else points[0].healthy + HealthyOf(points[1..])
  }

  function SlowestOf(points: seq<Point>): (s: int)
    ensures s >= 0
  {
    if points == [] then 0
    else
      var rest := SlowestOf(points[1..]);
      if points[0].slowest > rest then points[0].slowest else rest
  }

  function TotalSince(points: seq<Point>, midnight: int): int {
    if points == [] then 0
    else (if points[0].start >= midnight then points[0].total else 0) + TotalSince(points[1..], midnight)
  }

  /** The aggregation loop of a snapshot over one provider's points; today goes on from the providers before. */
  method Aggregate(points: seq<Point>, midnight: int, counted: int)
    returns (total: int, healthy: int, slowest: int, today: int)
    ensures total == TotalOf(points)
    ensures healthy == HealthyOf(points)
    ensures slowest == SlowestOf(points)
    ensures today == counted + TotalSince(points, midnight)
  {
    total, healthy, slowest, today := 0, 0, 0, counted;
    assert points[0..] == points;
    for i := 0 to |points|
      invariant total + TotalOf(points[i..]) == TotalOf(points)
      invariant healthy + HealthyOf(points[i..]) == HealthyOf(points)
      invariant slowest >= 0
      invariant SlowestOf(points) == if slowest > SlowestOf(points[i..]) then slowest else SlowestOf(points[i..])
      invariant today + TotalSince(points[i..], midnight) == counted + TotalSince(points, midnight)
    {
      assert points[i..][0] == points[i] && points[i..][1..] == points[i + 1..];
      total := total + points[i].total;
      healthy := healthy + points[i].healthy;
      if points[i].slowest > slowest {
        slowest := points[i].slowest;
      }
      if points[i].start >= midnight {
        today := today + points[i].total;
      }
    }
  }

  function Longest(checks: seq<Check>, p: Check -> bool): int {
    Slowest(Durations(Keep(checks, p)))
  }

  /** The raw window counts split at any bucket boundary inside it. */
  lemma WindowSplits(checks: seq<Check>, monitor: int, from: int, middle: int, until: int)
    requires from <= middle <= until
    ensures var whole := InWindow(monitor, from, until);
      var left, right := InWindow(monitor, from, middle), InWindow(monitor, middle, until);
      && Count(checks, whole) == Count(checks, left) + Count(checks, right)
      && Count(checks, Both(whole, IsHealthy())) ==
         Count(checks, Both(left, IsHealthy())) + Count(checks, Both(right, IsHealthy()))
      && Longest(checks, whole) ==
         (if Longest(checks, left) > Longest(checks, right) then Longest(checks, left) else Longest(checks, right))
  {
    var whole := InWindow(monitor, from, until);
    var left, right := InWindow(monitor, from, middle), InWindow(monitor, middle, until);
    CountSplit(checks, whole, left, right);
    CountSplit(checks, Both(whole, IsHealthy()), Both(left, IsHealthy()), Both(right, IsHealthy()));
    LongestOfSubset(checks, left, whole);
    LongestOfSubset(checks, right, whole);
    LongestAttained(checks, whole);
    var slowest := Longest(checks, whole);
    if slowest > 0 {
      var c :| c in checks && whole(c) && c.duration == slowest;
      LongestBounds(checks, left, c);
      LongestBounds(checks, right, c);
    }
  }

  lemma LongestBounds(checks: seq<Check>, p: Check -> bool, c: Check)
    requires c in checks
    ensures Longest(checks, p) >= 0
    ensures p(c) ==> c.duration <= Longest(checks, p)
  {
    var rows := Keep(checks, p);
    SlowestIsLargest(Durations(rows));
    DurationsMember(rows);
    KeepMember(checks, p, c);
    if p(c) {
      var i :| 0 <= i < |rows| && rows[i] == c;
      assert Durations(rows)[i] == c.duration;
      assert c.duration in Durations(rows);
    }
  }

  lemma LongestAttained(checks: seq<Check>, p: Check -> bool)
    ensures Longest(checks, p) >= 0
    ensures Longest(checks, p) > 0 ==> exists c :: c in checks && p(c) && c.duration == Longest(checks, p)
  {
    var rows := Keep(checks, p);
    SlowestIsLargest(Durations(rows));
    DurationsMember(rows);
    if Longest(checks, p) > 0 {
      var i :| 0 <= i < |rows| && Durations(rows)[i] == Longest(checks, p);
      KeepMember(checks, p, rows[i]);
    }
  }

  lemma LongestOfSubset(checks: seq<Check>, p: Check -> bool, q: Check -> bool)
    requires forall c :: c in checks && p(c) ==> q(c)
    ensures 0 <= Longest(checks, p) <= Longest(checks, q)
  {
    LongestAttained(checks, p);
    LongestAttained(checks, q);
    if Longest(checks, p) > 0 {
      var c :| c in checks && p(c) && c.duration == Longest(checks, p);
      LongestBounds(checks, q, c);
    }
  }

  /** One bucket of the window against the raw checks it covers. */
  lemma BucketTotals(rollups: map<Key, Rollup>, checks: seq<Check>, k: Key)
    requires Agrees(rollups, checks) && IsBucket(k)
    ensures var covered := InWindow(k.monitor, k.start, k.start + k.width);
      && Count(checks, covered) == (if k in rollups then rollups[k].total else 0)
      && Count(checks, Both(covered, IsHealthy())) == (if k in rollups then rollups[k].healthy else 0)
      && Longest(checks, covered) == (if k in rollups then rollups[k].slowest else 0)
      && (k in rollups ==> rollups[k].total > 0)
  {
    assert RowAgrees(rollups, checks, k);
    var covered := InWindow(k.monitor, k.start, k.start + k.width);
    KeepLength(checks, covered);
    KeepKeep(checks, covered, IsHealthy());
  }

  lemma TotalsOfCons(p: Point, rest: seq<Point>)
    ensures TotalOf([p] + rest) == p.total + TotalOf(rest)
    ensures HealthyOf([p] + rest) == p.healthy + HealthyOf(rest)
    ensures SlowestOf([p] + rest) == if p.slowest > SlowestOf(rest) then p.slowest else SlowestOf(rest)
  {
  }

  /** The totals summed from the rollups of a window against its raw checks. */
  ghost predicate TotalsAgree(
    rollups: map<Key, Rollup>, checks: seq<Check>, monitor: int, width: int, first: int, last: int)
    requires width > 0
  {
    var points, raw := PointsFrom(rollups, monitor, width, first, last), InWindow(monitor, first, last + width);
    && TotalOf(points) == Count(checks, raw)
    && HealthyOf(points) == Count(checks, Both(raw, IsHealthy()))
    && SlowestOf(points) == Longest(checks, raw)
  }

  /** What the first bucket adds to the totals read from the rollups. */
  lemma TotalsStep(rollups: map<Key, Rollup>, monitor: int, width: int, first: int, last: int)
    requires width > 0 && first <= last
    ensures var key := Key(monitor, width, first);
      var points := PointsFrom(rollups, monitor, width, first, last);
      var rest := PointsFrom(rollups, monitor, width, first + width, last);
      && TotalOf(points) == (if key in rollups then rollups[key].total else 0) + TotalOf(rest)
      && HealthyOf(points) == (if key in rollups then rollups[key].healthy else 0) + HealthyOf(rest)
      && SlowestOf(points) == (if key in rollups && rollups[key].slowest > SlowestOf(rest) then rollups[key].slowest
                               else SlowestOf(rest))
  {
    var key := Key(monitor, width, first);
    if key in rollups {
      TotalsOfCons(PointOf(first, rollups[key]), PointsFrom(rollups, monitor, width, first + width, last));
    }
  }

  lemma OneMoreBucket(rollups: map<Key, Rollup>, checks: seq<Check>, monitor: int, width: int, first: int, last: int)
    requires Agrees(rollups, checks) && width in WIDTHS && Aligned(first, width) && first <= last
    requires TotalsAgree(rollups, checks, monitor, width, first + width, last)
    ensures TotalsAgree(rollups, checks, monitor, width, first, last)
  {
    BucketTotals(rollups, checks, Key(monitor, width, first));
    WindowSplits(checks, monitor, first, first + width, last + width);
    TotalsStep(rollups, monitor, width, first, last);
  }

  /** The totals summed from the rollups of a window are exactly those of its raw checks. */
  lemma {:induction false} TotalsExact(
    rollups: map<Key, Rollup>, checks: seq<Check>, monitor: int, width: int, first: int, last: int)
    requires Agrees(rollups, checks) && width in WIDTHS
    requires Aligned(first, width) && Aligned(last, width) && first <= last + width
    ensures TotalsAgree(rollups, checks, monitor, width, first, last)
    decreases last - first + width
  {
    if first > last {
      AlignedApart(last, first, width);
      EmptyWindow(checks, monitor, first);
    } else {
      AlignedApart(first, last, width);
      StepsAreAligned(first, -1, width);
      TotalsExact(rollups, checks, monitor, width, first + width, last);
      OneMoreBucket(rollups, checks, monitor, width, first, last);
    }
  }

  lemma EmptyWindow(checks: seq<Check>, monitor: int, at: int)
    ensures Count(checks, InWindow(monitor, at, at)) == 0
    ensures Count(checks, Both(InWindow(monitor, at, at), IsHealthy())) == 0
    ensures Longest(checks, InWindow(monitor, at, at)) == 0
  {
  }

  /** Counting from midnight on is the total of the part of the window at or after midnight. */
  lemma {:induction false} TodayIsAWindow(
    rollups: map<Key, Rollup>, monitor: int, width: int, first: int, last: int, midnight: int)
    requires Aligned(first, width) && Aligned(midnight, width)
    ensures TotalSince(PointsFrom(rollups, monitor, width, first, last), midnight) ==
            TotalOf(PointsFrom(rollups, monitor, width, if first < midnight then midnight else first, last))
    decreases last - first + width
  {
    if first <= last {
      StepsAreAligned(first, -1, width);
      AlignedApart(first, midnight, width);
      TodayIsAWindow(rollups, monitor, width, first + width, last, midnight);
    }
  }

  function Midnight(now: int): int {
    BucketStartFor(now, DAY)
  }

  /** Midnight is the start of the UTC day that holds now. */
  lemma MidnightStartsToday(now: int)
    ensures Midnight(now) % 86400 == 0 && Midnight(now) <= now < Midnight(now) + 86400
  {
    BucketContains(now, DAY);
  }

  /** Every dashboard range reaches back to midnight. */
  lemma MidnightInWindow(spec: Range, now: int)
    requires spec in RANGES
    ensures spec.width in WIDTHS && spec.points > 0
    ensures Aligned(Midnight(now), spec.width)
    ensures WindowOf(spec, now).first <= Midnight(now) <= WindowOf(spec, now).last + spec.width
  {
    BucketContains(now, DAY);
    MidnightIsABoundary(Midnight(now), spec.width);
    MidnightIsABoundary(Midnight(now) + DAY, spec.width);
    WindowShape(spec, now);
    AlignedApart(WindowOf(spec, now).last, Midnight(now) + DAY, spec.width);
  }

  /** What one provider adds to ChecksToday. */
  function ShareOfToday(rollups: map<Key, Rollup>, monitor: int, spec: Range, now: int): int
    requires spec.width > 0
  {
    var w := WindowOf(spec, now);
    TotalSince(PointsFrom(rollups, monitor, spec.width, w.first, w.last), Midnight(now))
  }

  /** One provider's share: its raw checks since midnight, to the end of the bucket still being filled. */
  lemma ShareExact(rollups: map<Key, Rollup>, checks: seq<Check>, monitor: int, spec: Range, now: int)
    requires Agrees(rollups, checks) && spec in RANGES
    ensures ShareOfToday(rollups, monitor, spec, now) ==
            Count(checks, InWindow(monitor, Midnight(now), WindowOf(spec, now).last + spec.width))
  {
    var w, midnight := WindowOf(spec, now), Midnight(now);
    MidnightInWindow(spec, now);
    WindowShape(spec, now);
    TodayIsAWindow(rollups, monitor, spec.width, w.first, w.last, midnight);
    TotalsExact(rollups, checks, monitor, spec.width, midnight, w.last);
  }

  /** ChecksToday: one counter that goes on over all providers of the response. */
  function ChecksToday(rollups: map<Key, Rollup>, monitors: seq<int>, spec: Range, now: int): int
    requires spec.width > 0
  {
    if monitors == [] then 0
    else
      var n := |monitors| - 1;
      ChecksToday(rollups, monitors[..n], spec, now) + ShareOfToday(rollups, monitors[n], spec, now)
  }

  ghost predicate Distinct(monitors: seq<int>) {
    forall i, j :: 0 <= i < j < |monitors| ==> monitors[i] != monitors[j]
  }

  /** Completed checks of the listed monitors in [from, until). */
  function CompletedOf(monitors: seq<int>, from: int, until: int): Check -> bool {
    (c: Check) => Completed(c) && c.monitor in monitors && from <= c.checkedAt < until
  }

  /** Completed checks of any monitor in [from, until). */
  function CompletedIn(from: int, until: int): Check -> bool {
    (c: Check) => Completed(c) && from <= c.checkedAt < until
  }

  lemma {:induction false} SharesAddUp(
    rollups: map<Key, Rollup>, checks: seq<Check>, monitors: seq<int>, spec: Range, now: int)
    requires Agrees(rollups, checks) && spec in RANGES && Distinct(monitors)
    ensures ChecksToday(rollups, monitors, spec, now) ==
            Count(checks, CompletedOf(monitors, Midnight(now), WindowOf(spec, now).last + spec.width))
  {
    var from, until := Midnight(now), WindowOf(spec, now).last + spec.width;
    if monitors == [] {
      KeepNone(checks, CompletedOf(monitors, from, until));
    } else {
      var init, last := monitors[..|monitors| - 1], monitors[|monitors| - 1];
      assert monitors == init + [last];
      SharesAddUp(rollups, checks, init, spec, now);
      ShareExact(rollups, checks, last, spec, now);
      CountSplit(checks, CompletedOf(monitors, from, until), CompletedOf(init, from, until),
                 InWindow(last, from, until));
    }
  }

  /**
   * Over a list of all monitors, each once, ChecksToday is the raw count since midnight to the end of the
   * bucket still being filled. It is the count up to now exactly when no completed check lies in between.
   */
  lemma ChecksTodayExact(
    rollups: map<Key, Rollup>, checks: seq<Check>, monitors: seq<int>, spec: Range, now: int)
    requires Agrees(rollups, checks) && spec in RANGES
    requires Distinct(monitors) && forall c :: c in checks ==> c.monitor in monitors
    ensures var today, end := ChecksToday(rollups, monitors, spec, now), WindowOf(spec, now).last + spec.width;
      && today == Count(checks, CompletedIn(Midnight(now), end))
      && (today == Count(checks, CompletedIn(Midnight(now), now)) <==>
            forall c :: c in checks && Completed(c) ==> !(now <= c.checkedAt < end))
  {
    var midnight, end := Midnight(now), WindowOf(spec, now).last + spec.width;
    SharesAddUp(rollups, checks, monitors, spec, now);
    KeepSame(checks, CompletedOf(monitors, midnight, end), CompletedIn(midnight, end));
    WindowShape(spec, now);
    BucketContains(now, DAY);
    CountSplit(checks, CompletedIn(midnight, end), CompletedIn(midnight, now), CompletedIn(now, end));
    CountZeroIff(checks, CompletedIn(now, end));
  }

  lemma CountZeroIff<T>(rows: seq<T>, p: T -> bool)
    ensures Count(rows, p) == 0 <==> forall x :: x in rows ==> !p(x)
  {
    if forall x :: x in rows ==> !p(x) {
      KeepNone(rows, p);
    } else {
      var x :| x in rows && p(x);
      KeepMember(rows, p, x);
      KeepLength(rows, p);
    }
  }

  /** When all checks precede now, the three ranges report the same ChecksToday, for any list of monitors. */
  lemma ChecksTodaySameForEveryRange(
    rollups: map<Key, Rollup>, checks: seq<Check>, monitors: seq<int>, a: Range, b: Range, now: int)
    requires Agrees(rollups, checks) && a in RANGES && b in RANGES && Distinct(monitors)
    requires forall c :: c in checks ==> c.checkedAt < now
    ensures ChecksToday(rollups, monitors, a, now) == ChecksToday(rollups, monitors, b, now)
  {
    SharesAddUp(rollups, checks, monitors, a, now);
    SharesAddUp(rollups, checks, monitors, b, now);
    WindowShape(a, now);
    WindowShape(b, now);
    KeepSame(checks, CompletedOf(monitors, Midnight(now), WindowOf(a, now).last + a.width),
             CompletedOf(monitors, Midnight(now), WindowOf(b, now).last + b.width));
  }

  // ----- The dense series -----

  datatype PulseState = Quiet | Fine | Outage

  /** One slot of the timeline. Quiet stands for the point state "unknown". */
  datatype Slot = Slot(start: int, state: PulseState, total: int, healthy: int, p50: Option<int>, p95: Option<int>)

  function StoredBy(points: seq<Point>): map<int, Point> {
    if points == [] then map[]
    else StoredBy(points[..|points| - 1])[points[|points| - 1].start := points[|points| - 1]]
  }

  function SlotAt(stored: map<int, Point>, bucket: int): Slot {
    if bucket in stored && stored[bucket].total > 0 then
      Slot(bucket, Fine, stored[bucket].total, stored[bucket].healthy, stored[bucket].p50, stored[bucket].p95)
    else Slot(bucket, Quiet, 0, 0, None, None)
  }

  function SlotsFrom(stored: map<int, Point>, bucket: int, last: int, width: int): seq<Slot>
    requires width > 0
    decreases last - bucket + width
  {
    if bucket > last then [] else [SlotAt(stored, bucket)] + SlotsFrom(stored, bucket + width, last, width)
  }

  method IndexPoints(points: seq<Point>) returns (stored: map<int, Point>)
    ensures stored == StoredBy(points)
  {
    stored := map[];
    for i := 0 to |points|
      invariant stored == StoredBy(points[..i])
    {
      assert points[..i + 1][..i] == points[..i];
      stored := stored[points[i].start := points[i]];
    }
    assert points[..|points|] == points;
  }

  /** Expands stored buckets into a dense series, filling the gaps. */
  method SeriesFromRollups(
    points: seq<Point>, firstBucket: int, lastBucket: int, width: int, maxPoints: int) returns (series: seq<Slot>)
    ensures width <= 0 || maxPoints <= 0 || lastBucket < firstBucket ==> series == []
    ensures width > 0 && maxPoints > 0 && lastBucket >= firstBucket ==>
              series == SlotsFrom(StoredBy(points), firstBucket, lastBucket, width)
  {
    if width <= 0 || maxPoints <= 0 || lastBucket < firstBucket {
      return [];
    }
    var stored := IndexPoints(points);
    series := [];
    var bucket := firstBucket;
    while bucket <= lastBucket
      invariant series + SlotsFrom(stored, bucket, lastBucket, width) ==
                SlotsFrom(stored, firstBucket, lastBucket, width)
      decreases lastBucket - bucket + width
    {
      var slot := Slot(bucket, Quiet, 0, 0, None, None);
      if bucket in stored && stored[bucket].total > 0 {
        var summary := stored[bucket];
        slot := Slot(bucket, Fine, summary.total, summary.healthy, summary.p50, summary.p95);
      }
      series := series + [slot];
      bucket := bucket + width;
    }
  }

  function SeriesTotal(series: seq<Slot>): int {
    if series == [] then 0 else series[0].total + SeriesTotal(series[1..])
  }

  /** The slots step by one width from the first bucket, so there is one for every bucket of the window. */
  lemma {:induction false} SlotsAreDense(stored: map<int, Point>, first: int, n: nat, width: int)
    requires width > 0
    ensures var series := SlotsFrom(stored, first, first + (n - 1) * width, width);
      && |series| == n
      && (forall i :: 0 <= i < n ==> series[i] == SlotAt(stored, first + i * width))
    decreases n
  {
    var last := first + (n - 1) * width;
    if n > 0 {
      assert (n - 1) * width >= 0;
      assert last == (first + width) + (n - 2) * width;
      SlotsAreDense(stored, first + width, n - 1, width);
      var series := SlotsFrom(stored, first, last, width);
      forall i | 0 < i < n
        ensures series[i] == SlotAt(stored, first + i * width)
      {
        assert first + i * width == (first + width) + (i - 1) * width;
      }
    } else {
      assert last == first - width;
    }
  }

  /** Points stored by distinct buckets are found again, and nothing else is. */
  lemma {:induction false} StoredByFinds(points: seq<Point>, i: nat)
    requires i < |points| && forall j :: i < j < |points| ==> points[j].start != points[i].start
    ensures points[i].start in StoredBy(points) && StoredBy(points)[points[i].start] == points[i]
  {
    var n := |points| - 1;
    if i < n {
      StoredByFinds(points[..n], i);
    }
  }

  lemma {:induction false} StoredByMisses(points: seq<Point>, bucket: int)
    requires forall i :: 0 <= i < |points| ==> points[i].start != bucket
    ensures bucket !in StoredBy(points)
  {
    if points != [] {
      StoredByMisses(points[..|points| - 1], bucket);
    }
  }

  /** A slot of the series shows the stored row of its bucket, or nothing. */
  lemma SlotShowsRow(
    rollups: map<Key, Rollup>, checks: seq<Check>, monitor: int, width: int, first: int, last: int, bucket: int)
    requires Agrees(rollups, checks) && width in WIDTHS
    requires Aligned(first, width) && Aligned(bucket, width) && first <= bucket <= last
    ensures var key := Key(monitor, width, bucket);
      var slot := SlotAt(StoredBy(PointsFrom(rollups, monitor, width, first, last)), bucket);
      slot == if key in rollups
              then Slot(bucket, Fine, rollups[key].total, rollups[key].healthy, rollups[key].p50, rollups[key].p95)
              else Slot(bucket, Quiet, 0, 0, None, None)
  {
    var key, points := Key(monitor, width, bucket), PointsFrom(rollups, monitor, width, first, last);
    PointsAreTheRows(rollups, checks, monitor, width, first, last);
    BucketTotals(rollups, checks, key);
    if key in rollups {
      var p := PointOf(bucket, rollups[key]);
      assert p in points;
      var i :| 0 <= i < |points| && points[i] == p;
      StoredByFinds(points, i);
    } else {
      forall i | 0 <= i < |points|
        ensures points[i].start != bucket
      {
        assert points[i] in points;
      }
      StoredByMisses(points, bucket);
    }
  }

  lemma {:induction false} SeriesTotalExact(
    rollups: map<Key, Rollup>, checks: seq<Check>, monitor: int, width: int, first: int, bucket: int, last: int)
    requires Agrees(rollups, checks) && width in WIDTHS
    requires Aligned(first, width) && Aligned(bucket, width) && first <= bucket
    ensures SeriesTotal(SlotsFrom(StoredBy(PointsFrom(rollups, monitor, width, first, last)), bucket, last, width)) ==
            TotalOf(PointsFrom(rollups, monitor, width, bucket, last))
    decreases last - bucket + width
  {
    if bucket <= last {
      StepsAreAligned(bucket, -1, width);
      SeriesTotalExact(rollups, checks, monitor, width, first, bucket + width, last);
      SlotShowsRow(rollups, checks, monitor, width, first, last, bucket);
    }
  }

  /**
   * The series of a dashboard range: exactly its number of points, one width apart, the last slot the
   * bucket being filled, and its check counts sum to the raw checks of the window.
   */
  lemma DenseSeries(rollups: map<Key, Rollup>, checks: seq<Check>, monitor: int, spec: Range, now: int)
    requires Agrees(rollups, checks) && spec in RANGES
    ensures var w := WindowOf(spec, now);
      var points := PointsFrom(rollups, monitor, spec.width, w.first, w.last);
      var series := SlotsFrom(StoredBy(points), w.first, w.last, spec.width);
      && |series| == spec.points
      && (forall i :: 0 <= i < |series| ==> series[i].start == w.first + i * spec.width)
      && series[|series| - 1].start == w.last < now <= w.last + spec.width
      && SeriesTotal(series) == TotalOf(points) == Count(checks, InWindow(monitor, w.first, w.last + spec.width))
  {
    var w := WindowOf(spec, now);
    WindowShape(spec, now);
    var points := PointsFrom(rollups, monitor, spec.width, w.first, w.last);
    SlotsAreDense(StoredBy(points), w.first, spec.points, spec.width);
    SeriesTotalExact(rollups, checks, monitor, spec.width, w.first, w.first, w.last);
    TotalsExact(rollups, checks, monitor, spec.width, w.first, w.last);
  }

  // ----- The incident overlay -----

  /** Some second of the bucket lies in the incident. */
  ghost predicate Meets(p: Period, start: int, width: int) {
    exists t :: start <= t < start + width && Covers(p, t)
  }

  predicate Overlaps(p: Period, start: int, width: int) {
    p.openedAt < start + width && (p.resolvedAt == None || p.resolvedAt.value > start)
  }

  /**
   * The overlap test is exactly a meeting, but for an incident of no length: recovered in the second it
   * opened, it covers no second of the timeline and still marks the bucket it lies inside.
   */
  lemma OverlapIsMeeting(p: Period, start: int, width: int)
    requires width > 0
    ensures Overlaps(p, start, width) <==>
            || Meets(p, start, width)
            || (p.resolvedAt.Some? && start < p.resolvedAt.value <= p.openedAt < start + width)
  {
    var t := if p.openedAt > start then p.openedAt else start;
    if Overlaps(p, start, width) && (p.resolvedAt == None || p.openedAt < p.resolvedAt.value) {
      assert start <= t < start + width && Covers(p, t);
    }
  }

  /** Marks in place every slot overlapping an incident; no measurement changes. */
  method OverlayIncidentStates(series: array<Slot>, incidents: seq<Period>, width: int)
    modifies series
    ensures forall i :: 0 <= i < series.Length ==>
              series[i] == if width > 0 && exists p :: p in incidents && Overlaps(p, old(series[i]).start, width)
                           then old(series[i]).(state := Outage) else old(series[i])
  {
    if width <= 0 {
      return;
    }
    for i := 0 to series.Length
      invariant forall j :: i <= j < series.Length ==> series[j] == old(series[j])
      invariant forall j :: 0 <= j < i ==>
                  series[j] == if exists p :: p in incidents && Overlaps(p, old(series[j]).start, width)
                               then old(series[j]).(state := Outage) else old(series[j])
    {
      var start := series[i].start;
      for k := 0 to |incidents|
        invariant forall p :: p in incidents[..k] ==> !Overlaps(p, start, width)
        invariant forall j :: i <= j < series.Length ==> series[j] == old(series[j])
        invariant forall j :: 0 <= j < i ==>
                    series[j] == if exists p :: p in incidents && Overlaps(p, old(series[j]).start, width)
                                 then old(series[j]).(state := Outage) else old(series[j])
      {
        var incident := incidents[k];
        if incident.openedAt < start + width && (incident.resolvedAt == None || incident.resolvedAt.value > start) {
          assert incidents[k] in incidents && Overlaps(incidents[k], old(series[i]).start, width);
          series[i] := series[i].(state := Outage);
          break;
        }
      }
    }
  }
}
