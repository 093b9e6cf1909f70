/** The window percentile estimated from per-bucket percentiles, and how far it can be off. */
module WindowPercentiles {
  import opened Rows
  import opened Schema
  import opened Buckets
  import opened OrderStatistics
  import opened Rollups
  import opened Dashboard

  datatype Weighted = Weighted(value: int, weight: int)

  function ValueOf(): Weighted -> int { (s: Weighted) => s.value }

  /** The total weight of the samples whose value satisfies p. */
  function Weight(samples: seq<Weighted>, p: int -> bool): int {
    if samples == [] then 0
    else
      var last := samples[|samples| - 1];
      Weight(samples[..|samples| - 1], p) + if p(last.value) then last.weight else 0
  }

  function Any(): int -> bool { x => true }

  function AtLeast(v: int): int -> bool { x => x >= v }

  /** A bucket's own percentile: the stored median up to 50 percent, the stored p95 above. */
  function Stored(point: Point, k: int): Option<int> {
    if 2 * k <= 100 then point.p50 else point.p95
  }

  /** The points that carry a percentile and a weight. */
  function Samples(points: seq<Point>, k: int): seq<Weighted> {
    if points == [] then []
    else
      var last, rest := points[|points| - 1], Samples(points[..|points| - 1], k);
      if Stored(last, k) == None || last.total <= 0 then rest
      else rest + [Weighted(Stored(last, k).value, last.total)]
  }

  ghost predicate Positive(samples: seq<Weighted>) {
    forall s :: s in samples ==> s.weight > 0
  }

  // ----- Weights behave like counts -----

  lemma WeightSnoc(samples: seq<Weighted>, s: Weighted, p: int -> bool)
    ensures Weight(samples + [s], p) == Weight(samples, p) + if p(s.value) then s.weight else 0
  {
  }

  lemma {:induction false} WeightConcat(a: seq<Weighted>, b: seq<Weighted>, p: int -> bool)
    ensures Weight(a + b, p) == Weight(a, p) + Weight(b, p)
  {
    if b == [] {
      assert a + b == a;
    } else {
      WeightConcat(a, b[..|b| - 1], p);
      assert a + b == (a + b[..|b| - 1]) + [b[|b| - 1]];
      WeightSnoc(a + b[..|b| - 1], b[|b| - 1], p);
    }
  }

  lemma {:induction false} WeightBetween(samples: seq<Weighted>, p: int -> bool, q: int -> bool)
    requires Positive(samples) && forall s :: s in samples && p(s.value) ==> q(s.value)
    ensures 0 <= Weight(samples, p) <= Weight(samples, q)
  {
    if samples != [] {
      assert samples == samples[..|samples| - 1] + [samples[|samples| - 1]];
      WeightBetween(samples[..|samples| - 1], p, q);
    }
  }

  lemma {:induction false} WeightComplement(samples: seq<Weighted>, p: int -> bool, q: int -> bool)
    requires forall s :: s in samples ==> p(s.value) == !q(s.value)
    ensures Weight(samples, p) + Weight(samples, q) == Weight(samples, Any())
  {
    if samples != [] {
      assert samples == samples[..|samples| - 1] + [samples[|samples| - 1]];
      WeightComplement(samples[..|samples| - 1], p, q);
    }
  }

  lemma {:induction false} InsertByWeight(sorted: seq<Weighted>, x: Weighted, p: int -> bool)
    ensures Weight(InsertBy(sorted, x, ValueOf()), p) == Weight(sorted, p) + if p(x.value) then x.weight else 0
  {
    if sorted == [] || ValueOf()(sorted[|sorted| - 1]) <= ValueOf()(x) {
      WeightSnoc(sorted, x, p);
    } else {
      var init, last := sorted[..|sorted| - 1], sorted[|sorted| - 1];
      InsertByWeight(init, x, p);
      WeightSnoc(InsertBy(init, x, ValueOf()), last, p);
    }
  }

  lemma {:induction false} SortByWeight(samples: seq<Weighted>, p: int -> bool)
    ensures Weight(SortBy(samples, ValueOf()), p) == Weight(samples, p)
  {
    if samples != [] {
      SortByWeight(samples[..|samples| - 1], p);
      InsertByWeight(SortBy(samples[..|samples| - 1], ValueOf()), samples[|samples| - 1], p);
    }
  }

  lemma {:induction false} SamplesPositive(points: seq<Point>, k: int)
    ensures Positive(Samples(points, k))
  {
    if points != [] {
      SamplesPositive(points[..|points| - 1], k);
    }
  }

  // ----- The estimate -----

  /** v is the weighted sample of the given rank: the nearest-rank rule with weights for counts. */
  ghost predicate HasWeightedRank(samples: seq<Weighted>, v: int, rank: int) {
    && (exists s :: s in samples && s.value == v)
    && Weight(samples, AtMost(v)) >= rank
    && Weight(samples, Below(v)) < rank
  }

  lemma PrefixWeight(ordered: seq<Weighted>, n: nat, v: int)
    requires n <= |ordered| && Positive(ordered)
    requires forall j :: 0 <= j < n ==> ordered[j].value <= v
    ensures Weight(ordered, AtMost(v)) >= Weight(ordered[..n], Any())
  {
    assert ordered == ordered[..n] + ordered[n..];
    WeightConcat(ordered[..n], ordered[n..], AtMost(v));
    WeightBetween(ordered[..n], Any(), AtMost(v));
    WeightBetween(ordered[n..], AtMost(v), Any());
  }

  lemma SuffixWeight(ordered: seq<Weighted>, n: nat, v: int)
    requires n <= |ordered| && Positive(ordered)
    requires forall j :: n <= j < |ordered| ==> ordered[j].value >= v
    ensures Weight(ordered, Below(v)) <= Weight(ordered[..n], Any())
  {
    assert ordered == ordered[..n] + ordered[n..];
    WeightConcat(ordered[..n], ordered[n..], Below(v));
    WeightBetween(ordered[..n], Below(v), Any());
    WeightComplement(ordered[n..], Below(v), AtLeast(v));
    WeightBetween(ordered[n..], Any(), AtLeast(v));
  }

  /** Collects the weighted samples of a window and their total weight. */
  method CollectSamples(points: seq<Point>, k: int) returns (samples: seq<Weighted>, totalWeight: int)
    ensures samples == Samples(points, k) && totalWeight == Weight(samples, Any())
  {
    samples, totalWeight := [], 0;
    for i := 0 to |points|
      invariant samples == Samples(points[..i], k)
      invariant totalWeight == Weight(samples, Any())
    {
      assert points[..i + 1][..i] == points[..i];
      var value := points[i].p95;
      if 2 * k <= 100 {
        value := points[i].p50;
      }
      if value == None || points[i].total <= 0 {
        continue;
      }
      WeightSnoc(samples, Weighted(value.value, points[i].total), Any());
      samples := samples + [Weighted(value.value, points[i].total)];
      totalWeight := totalWeight + points[i].total;
    }
    assert points[..|points|] == points;
  }

  /** Walks the samples by value until their weight reaches the target, which happens before they run out. */
  method SeekWeight(samples: seq<Weighted>, target: int) returns (v: int)
    requires Positive(samples) && 0 < target <= Weight(samples, Any())
    ensures HasWeightedRank(samples, v, target)
  {
    var ordered := SortBy(samples, ValueOf());
    SortByWeight(samples, Any());
    assert ordered[..|ordered|] == ordered;
    var seen := 0;
    for i := 0 to |ordered|
      invariant seen == Weight(ordered[..i], Any()) && seen < target
    {
      assert ordered[..i + 1] == ordered[..i] + [ordered[i]];
      WeightSnoc(ordered[..i], ordered[i], Any());
      seen := seen + ordered[i].weight;
      if seen >= target {
        SampleOfRank(samples, i, target);
        return ordered[i].value;
      }
    }
    // The whole weight has been seen, so a sample has been returned: the source's last return is never reached.
    assert false;
  }

  lemma SamplesCarryWeight(points: seq<Point>, k: int)
    ensures Positive(Samples(points, k)) && Weight(Samples(points, k), Any()) >= 0
    ensures Samples(points, k) == [] <==> Weight(Samples(points, k), Any()) == 0
  {
    var samples := Samples(points, k);
    SamplesPositive(points, k);
    if samples != [] {
      var init, last := samples[..|samples| - 1], samples[|samples| - 1];
      assert samples == init + [last] && last in samples;
      WeightBetween(init, Any(), Any());
    }
  }

  /** Estimates the k-th percentile of a window from its stored buckets; None when it holds no check. */
  method WeightedPercentile(points: seq<Point>, k: int) returns (r: Option<int>)
    requires 0 < k <= 100
    ensures r == None <==> Samples(points, k) == []
    ensures r.Some? ==> HasWeightedRank(Samples(points, k), r.value, Rank(k, Weight(Samples(points, k), Any())))
  {
    var samples, totalWeight := CollectSamples(points, k);
    SamplesCarryWeight(points, k);
    if totalWeight == 0 {
      return None;
    }
    RankInRange(k, totalWeight);
    var v := SeekWeight(samples, Rank(k, totalWeight));
    r := Some(v);
  }

  lemma SampleOfRank(samples: seq<Weighted>, i: nat, target: int)
    requires Positive(samples) && i < |SortBy(samples, ValueOf())|
    requires var ordered := SortBy(samples, ValueOf());
      Weight(ordered[..i], Any()) < target <= Weight(ordered[..i + 1], Any())
    ensures HasWeightedRank(samples, SortBy(samples, ValueOf())[i].value, target)
  {
    var ordered := SortBy(samples, ValueOf());
    var v := ordered[i].value;
    SortByAscending(samples, ValueOf());
    forall s | s in ordered
      ensures s in samples
    {
      SortByMember(samples, ValueOf(), s);
    }
    forall j | 0 <= j < |ordered|
      ensures j <= i ==> ordered[j].value <= v
      ensures j >= i ==> ordered[j].value >= v
    {
      assert j < i ==> ValueOf()(ordered[j]) <= ValueOf()(ordered[i]);
      assert j > i ==> ValueOf()(ordered[i]) <= ValueOf()(ordered[j]);
    }
    PrefixWeight(ordered, i + 1, v);
    SuffixWeight(ordered, i, v);
    SortByWeight(samples, AtMost(v));
    SortByWeight(samples, Below(v));
    assert ordered[i] in samples;
  }

  // ----- How far the estimate can be off -----

  /** How many raw completed checks of the window have a latency that satisfies p. */
  function RawCount(checks: seq<Check>, monitor: int, from: int, until: int, p: int -> bool): nat {
    Count(checks, Both(InWindow(monitor, from, until), Took(p)))
  }

  lemma RawCountOfBucket(checks: seq<Check>, k: Key, p: int -> bool)
    ensures RawCount(checks, k.monitor, k.start, k.start + k.width, p) == Count(Durations(BucketRows(checks, k)), p)
  {
    CountDurations(BucketRows(checks, k), p);
    KeepKeep(checks, InWindow(k.monitor, k.start, k.start + k.width), Took(p));
  }

  /** k percent of n, in hundredths, for the two percentiles in use. */
  function Part(k: int, n: int): int {
    if k == 50 then 50 * n else 95 * n
  }

  /** The rest of n. */
  function Rest(k: int, n: int): int {
    if k == 50 then 50 * n else 5 * n
  }

  lemma RankParts(k: int, n: int)
    requires (k == 50 || k == 95) && n > 0
    ensures Part(k, n) <= 100 * Rank(k, n) < Part(k, n) + 100
  {
    if k == 50 {
      RankInRange(50, n);
    } else {
      RankInRange(95, n);
    }
  }

  /** At least k percent of the samples are at or below their k-th percentile, and more than the rest at or above it. */
  lemma PercentileShares(values: seq<int>, k: int, v: int, r: int)
    requires k == 50 || k == 95
    requires values != [] && NearestRank(values, k) == Some(v)
    ensures v <= r ==> 100 * Count(values, AtMost(r)) >= Part(k, |values|)
    ensures v >= r ==> 100 * Count(values, AtLeast(r)) > Rest(k, |values|)
  {
    NearestRankExact(values, k, v);
    RankParts(k, |values|);
    if v <= r {
      CountMonotone(values, AtMost(v), AtMost(r));
    }
    if v >= r {
      CountMonotone(values, Below(r), Below(v));
      CountSplit(values, Any(), Below(r), AtLeast(r));
      KeepAll(values, Any());
      KeepLength(values, Any());
    }
  }

  lemma RawCountSplits(checks: seq<Check>, monitor: int, from: int, middle: int, until: int, p: int -> bool)
    requires from <= middle <= until
    ensures RawCount(checks, monitor, from, until, p) ==
            RawCount(checks, monitor, from, middle, p) + RawCount(checks, monitor, middle, until, p)
  {
    CountSplit(checks, Both(InWindow(monitor, from, until), Took(p)), Both(InWindow(monitor, from, middle), Took(p)),
               Both(InWindow(monitor, middle, until), Took(p)));
  }

  lemma {:induction false} SamplesOfCons(p: Point, rest: seq<Point>, k: int)
    ensures Samples([p] + rest, k) == Samples([p], k) + Samples(rest, k)
  {
    if rest == [] {
      assert [p] + rest == [p];
    } else {
      var init := rest[..|rest| - 1];
      SamplesOfCons(p, init, k);
      assert ([p] + rest)[..|rest|] == [p] + init;
    }
  }

  /** Weight on each side of r is matched by k percent, or more than 100 - k percent, of raw checks there. */
  ghost predicate Matched(k: int, rawLow: int, rawHigh: int, low: int, high: int) {
    && 100 * rawLow >= Part(k, low)
    && 100 * rawHigh >= Rest(k, high) + (if high > 0 then 1 else 0)
    && high >= 0
  }

  lemma MatchedAdds(
    k: int, rawLow: int, rawHigh: int, low: int, high: int, moreLow: int, moreHigh: int, addedLow: int, addedHigh: int)
    requires k == 50 || k == 95
    requires Matched(k, rawLow, rawHigh, low, high) && Matched(k, moreLow, moreHigh, addedLow, addedHigh)
    ensures Matched(k, rawLow + moreLow, rawHigh + moreHigh, low + addedLow, high + addedHigh)
  {
  }

  function SampleOf(start: int, row: Rollup, k: int): seq<Weighted> {
    Samples([PointOf(start, row)], k)
  }

  lemma SingleSample(point: Point, k: int, p: int -> bool)
    requires point.total > 0 && Stored(point, k).Some?
    ensures Weight(Samples([point], k), p) == if p(Stored(point, k).value) then point.total else 0
  {
  }

  /** One stored bucket as a weighted sample against its raw checks. */
  lemma BucketShares(rollups: map<Key, Rollup>, checks: seq<Check>, key: Key, k: int, r: int)
    requires k == 50 || k == 95
    requires Agrees(rollups, checks) && key in rollups
    ensures var sample := SampleOf(key.start, rollups[key], k);
      && Weight(sample, Any()) == rollups[key].total > 0
      && Matched(k, RawCount(checks, key.monitor, key.start, key.start + key.width, AtMost(r)),
                 RawCount(checks, key.monitor, key.start, key.start + key.width, AtLeast(r)),
                 Weight(sample, AtMost(r)), Weight(sample, AtLeast(r)))
  {
    assert RowAgrees(rollups, checks, key);
    var durations, point := Durations(BucketRows(checks, key)), PointOf(key.start, rollups[key]);
    SummaryOrdered(BucketRows(checks, key));
    DurationsMember(BucketRows(checks, key));
    assert NearestRank(durations, k) == Stored(point, k) && point.total == |durations|;
    SingleSample(point, k, Any());
    SingleSample(point, k, AtMost(r));
    SingleSample(point, k, AtLeast(r));
    PercentileShares(durations, k, Stored(point, k).value, r);
    RawCountOfBucket(checks, key, AtMost(r));
    RawCountOfBucket(checks, key, AtLeast(r));
  }

  function WindowWeight(
    rollups: map<Key, Rollup>, monitor: int, width: int, first: int, last: int, k: int, p: int -> bool): int
    requires width > 0
  {
    Weight(Samples(PointsFrom(rollups, monitor, width, first, last), k), p)
  }

  lemma WindowWeightStep(
    rollups: map<Key, Rollup>, monitor: int, width: int, first: int, last: int, k: int, p: int -> bool)
    requires width > 0 && first <= last
    ensures var key := Key(monitor, width, first);
      WindowWeight(rollups, monitor, width, first, last, k, p) ==
      (if key in rollups then Weight(SampleOf(first, rollups[key], k), p) else 0)
      + WindowWeight(rollups, monitor, width, first + width, last, k, p)
  {
    var key, points := Key(monitor, width, first), PointsFrom(rollups, monitor, width, first + width, last);
    if key in rollups {
      SamplesOfCons(PointOf(first, rollups[key]), points, k);
      WeightConcat(SampleOf(first, rollups[key], k), Samples(points, k), p);
    }
  }

  /** The weight and the raw checks of a window on both sides of r. */
  ghost predicate WindowMatched(
    rollups: map<Key, Rollup>, checks: seq<Check>, monitor: int, width: int, first: int, last: int, k: int, r: int)
    requires width > 0
  {
    Matched(k, RawCount(checks, monitor, first, last + width, AtMost(r)),
            RawCount(checks, monitor, first, last + width, AtLeast(r)),
            WindowWeight(rollups, monitor, width, first, last, k, AtMost(r)),
            WindowWeight(rollups, monitor, width, first, last, k, AtLeast(r)))
  }

  /** One bucket of a window, stored or not, as a weighted sample against its raw checks. */
  lemma BucketMatched(rollups: map<Key, Rollup>, checks: seq<Check>, key: Key, k: int, r: int)
    requires (k == 50 || k == 95) && Agrees(rollups, checks)
    ensures Matched(k, RawCount(checks, key.monitor, key.start, key.start + key.width, AtMost(r)),
                    RawCount(checks, key.monitor, key.start, key.start + key.width, AtLeast(r)),
                    BucketWeight(rollups, key, k, AtMost(r)), BucketWeight(rollups, key, k, AtLeast(r)))
  {
    if key in rollups {
      BucketShares(rollups, checks, key, k, r);
    }
  }

  /** The weight on one side of one bucket, stored or not. */
  function BucketWeight(rollups: map<Key, Rollup>, key: Key, k: int, p: int -> bool): int {
    if key in rollups then Weight(SampleOf(key.start, rollups[key], k), p) else 0
  }

  /** What one bucket adds on one side: to the raw checks and to the weight. */
  lemma OneSide(
    rollups: map<Key, Rollup>, checks: seq<Check>, monitor: int, width: int, first: int, last: int, k: int,
    p: int -> bool)
    requires width > 0 && first <= last
    ensures RawCount(checks, monitor, first, last + width, p) ==
            RawCount(checks, monitor, first, first + width, p)
            + RawCount(checks, monitor, first + width, last + width, p)
    ensures WindowWeight(rollups, monitor, width, first, last, k, p) ==
            BucketWeight(rollups, Key(monitor, width, first), k, p)
            + WindowWeight(rollups, monitor, width, first + width, last, k, p)
  {
    RawCountSplits(checks, monitor, first, first + width, last + width, p);
    WindowWeightStep(rollups, monitor, width, first, last, k, p);
  }

  lemma OneMorePoint(
    rollups: map<Key, Rollup>, checks: seq<Check>, monitor: int, width: int, first: int, last: int, k: int, r: int)
    requires (k == 50 || k == 95) && Agrees(rollups, checks) && width > 0 && first <= last
    requires WindowMatched(rollups, checks, monitor, width, first + width, last, k, r)
    ensures WindowMatched(rollups, checks, monitor, width, first, last, k, r)
  {
    var key, low, high := Key(monitor, width, first), AtMost(r), AtLeast(r);
    OneSide(rollups, checks, monitor, width, first, last, k, low);
    OneSide(rollups, checks, monitor, width, first, last, k, high);
    BucketMatched(rollups, checks, key, k, r);
    MatchedAdds(k, RawCount(checks, monitor, first, first + width, low),
                RawCount(checks, monitor, first, first + width, high),
                BucketWeight(rollups, key, k, low), BucketWeight(rollups, key, k, high),
                RawCount(checks, monitor, first + width, last + width, low),
                RawCount(checks, monitor, first + width, last + width, high),
                WindowWeight(rollups, monitor, width, first + width, last, k, low),
                WindowWeight(rollups, monitor, width, first + width, last, k, high));
  }

  /** Summed over the buckets, the weight on either side of r is matched by raw checks on that side. */
  lemma {:induction false} WindowShares(
    rollups: map<Key, Rollup>, checks: seq<Check>, monitor: int, width: int, first: int, last: int, k: int, r: int)
    requires k == 50 || k == 95
    requires Agrees(rollups, checks) && width > 0
    requires Aligned(first, width) && Aligned(last, width) && first <= last + width
    ensures WindowMatched(rollups, checks, monitor, width, first, last, k, r)
    decreases last - first + width
  {
    if first <= last {
      AlignedApart(first, last, width);
      StepsAreAligned(first, -1, width);
      WindowShares(rollups, checks, monitor, width, first + width, last, k, r);
      OneMorePoint(rollups, checks, monitor, width, first, last, k, r);
    }
  }

  lemma {:induction false} WeightIsTotal(
    rollups: map<Key, Rollup>, checks: seq<Check>, monitor: int, width: int, first: int, last: int, k: int)
    requires k == 50 || k == 95
    requires Agrees(rollups, checks) && width > 0
    ensures WindowWeight(rollups, monitor, width, first, last, k, Any()) ==
            TotalOf(PointsFrom(rollups, monitor, width, first, last))
    decreases last - first + width
  {
    if first <= last {
      var key := Key(monitor, width, first);
      WeightIsTotal(rollups, checks, monitor, width, first + width, last, k);
      WindowWeightStep(rollups, monitor, width, first, last, k, Any());
      TotalsStep(rollups, monitor, width, first, last);
      if key in rollups {
        BucketShares(rollups, checks, key, k, 0);
      }
    }
  }

  /**
   * The shares of an estimate v for N raw checks in the window: at least N/4 at or below the median estimate
   * and more than N/4 at or above it; for the p95 estimate at least 0.9025 N and more than 0.0025 N.
   */
  predicate Shares(k: int, low: int, high: int, n: int) {
    if k == 50 then 4 * low >= n && 4 * high > n
    else 10000 * low >= 9025 * n && 10000 * high > 25 * n
  }

  ghost predicate WithinShares(k: int, v: int, checks: seq<Check>, monitor: int, from: int, until: int) {
    Shares(k, RawCount(checks, monitor, from, until, AtMost(v)), RawCount(checks, monitor, from, until, AtLeast(v)),
           Count(checks, InWindow(monitor, from, until)))
  }

  /** The error of the window estimate: over any aligned window it stays within its shares of the raw latencies. */
  lemma EstimateWithinShares(
    rollups: map<Key, Rollup>, checks: seq<Check>, monitor: int, width: int, first: int, last: int, k: int, r: int)
    requires k == 50 || k == 95
    requires Agrees(rollups, checks) && width in WIDTHS
    requires Aligned(first, width) && Aligned(last, width) && first <= last + width
    requires var samples := Samples(PointsFrom(rollups, monitor, width, first, last), k);
      HasWeightedRank(samples, r, Rank(k, Weight(samples, Any())))
    ensures WithinShares(k, r, checks, monitor, first, last + width)
  {
    var points := PointsFrom(rollups, monitor, width, first, last);
    WindowShares(rollups, checks, monitor, width, first, last, k, r);
    WeightIsTotal(rollups, checks, monitor, width, first, last, k);
    TotalsExact(rollups, checks, monitor, width, first, last);
    SamplesPositive(points, k);
    RankSplitsWeight(Samples(points, k), r, Rank(k, Weight(Samples(points, k), Any())));
    SharesOfShares(k, RawCount(checks, monitor, first, last + width, AtMost(r)),
                   RawCount(checks, monitor, first, last + width, AtLeast(r)),
                   Weight(Samples(points, k), AtMost(r)), Weight(Samples(points, k), AtLeast(r)),
                   Weight(Samples(points, k), Any()));
  }

  lemma RankSplitsWeight(samples: seq<Weighted>, v: int, rank: int)
    requires Positive(samples) && HasWeightedRank(samples, v, rank)
    ensures Weight(samples, AtMost(v)) >= rank > Weight(samples, Any()) - Weight(samples, AtLeast(v))
    ensures 0 <= Weight(samples, AtMost(v)) <= Weight(samples, Any())
  {
    WeightComplement(samples, Below(v), AtLeast(v));
    WeightBetween(samples, AtMost(v), Any());
  }

  /** k percent of k percent on one side, and more than 100 - k percent of as much on the other. */
  lemma SharesOfShares(k: int, rawLow: int, rawHigh: int, low: int, high: int, n: int)
    requires k == 50 || k == 95
    requires Matched(k, rawLow, rawHigh, low, high)
    requires low >= Rank(k, n) > n - high && 0 <= low <= n
    ensures Shares(k, rawLow, rawHigh, n)
  {
    if n > 0 {
      RankParts(k, n);
    }
  }

  // ----- The order of a provider's figures -----

  ghost predicate PointsOrdered(points: seq<Point>) {
    forall p :: p in points ==> p.total > 0 && p.p50.Some? && p.p95.Some? && p.p50.value <= p.p95.value <= p.slowest
  }

  lemma {:induction false} StoredPointsOrdered(
    rollups: map<Key, Rollup>, checks: seq<Check>, monitor: int, width: int, first: int, last: int)
    requires Agrees(rollups, checks) && width > 0
    ensures PointsOrdered(PointsFrom(rollups, monitor, width, first, last))
    decreases last - first + width
  {
    if first <= last {
      StoredPointsOrdered(rollups, checks, monitor, width, first + width, last);
      var key := Key(monitor, width, first);
      assert RowAgrees(rollups, checks, key);
      if key in rollups {
        SummaryOrdered(BucketRows(checks, key));
      }
    }
  }

  /** One more ordered point is one more sample. */
  lemma SamplesSnoc(points: seq<Point>, p: Point, k: int)
    requires p.total > 0 && p.p50.Some? && p.p95.Some?
    ensures Samples(points + [p], k) == Samples(points, k) + [Weighted(Stored(p, k).value, p.total)]
  {
    assert (points + [p])[..|points|] == points;
  }

  lemma {:induction false} MedianWeighsEarlier(points: seq<Point>, v: int)
    requires PointsOrdered(points)
    ensures Weight(Samples(points, 95), AtMost(v)) <= Weight(Samples(points, 50), AtMost(v))
  {
    if points != [] {
      var init, last := points[..|points| - 1], points[|points| - 1];
      assert points == init + [last];
      MedianWeighsEarlier(init, v);
      SamplesSnoc(init, last, 95);
      SamplesSnoc(init, last, 50);
      WeightSnoc(Samples(init, 95), Weighted(last.p95.value, last.total), AtMost(v));
      WeightSnoc(Samples(init, 50), Weighted(last.p50.value, last.total), AtMost(v));
    }
  }

  lemma {:induction false} SameWeight(points: seq<Point>)
    requires PointsOrdered(points)
    ensures Weight(Samples(points, 95), Any()) == Weight(Samples(points, 50), Any())
  {
    if points != [] {
      var init, last := points[..|points| - 1], points[|points| - 1];
      assert points == init + [last];
      SameWeight(init);
      SamplesSnoc(init, last, 95);
      SamplesSnoc(init, last, 50);
      WeightSnoc(Samples(init, 95), Weighted(last.p95.value, last.total), Any());
      WeightSnoc(Samples(init, 50), Weighted(last.p50.value, last.total), Any());
    }
  }

  lemma {:induction false} SamplesWithinSlowest(points: seq<Point>, s: Weighted)
    requires PointsOrdered(points) && s in Samples(points, 95)
    ensures s.value <= SlowestOf(points)
  {
    if points != [] {
      var init, last := points[..|points| - 1], points[|points| - 1];
      assert points == init + [last];
      SamplesSnoc(init, last, 95);
      SlowestOfSnoc(init, last);
      if s in Samples(init, 95) {
        SamplesWithinSlowest(init, s);
      }
    }
  }

  lemma {:induction false} SlowestOfSnoc(points: seq<Point>, p: Point)
    ensures SlowestOf(points + [p]) >= SlowestOf(points)
    ensures SlowestOf(points + [p]) >= p.slowest
  {
    if points == [] {
      assert points + [p] == [p];
    } else {
      SlowestOfSnoc(points[1..], p);
      assert (points + [p])[1..] == points[1..] + [p];
    }
  }

  /** A provider with checks in the window reports P50 <= P95 <= SlowestMS. */
  lemma ProviderFiguresOrdered(
    rollups: map<Key, Rollup>, checks: seq<Check>, monitor: int, width: int, first: int, last: int, median: int,
    p95: int)
    requires Agrees(rollups, checks) && width > 0
    requires var points := PointsFrom(rollups, monitor, width, first, last);
      && HasWeightedRank(Samples(points, 50), median, Rank(50, Weight(Samples(points, 50), Any())))
      && HasWeightedRank(Samples(points, 95), p95, Rank(95, Weight(Samples(points, 95), Any())))
    ensures median <= p95 <= SlowestOf(PointsFrom(rollups, monitor, width, first, last))
  {
    var points := PointsFrom(rollups, monitor, width, first, last);
    StoredPointsOrdered(rollups, checks, monitor, width, first, last);
    MedianWeighsEarlier(points, p95);
    SameWeight(points);
    SamplesCarryWeight(points, 50);
    var s :| s in Samples(points, 95) && s.value == p95;
    SamplesWithinSlowest(points, s);
    if p95 < median {
      WeightBetween(Samples(points, 50), AtMost(p95), Below(median));
    }
  }
}
