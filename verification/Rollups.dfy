/** What a rollup row means: the direct computation over the raw checks of its bucket. */
module Rollups {
  import opened Rows
  import opened Schema
  import opened Buckets
  import opened OrderStatistics

  /** The checks the dashboard counts. */
  predicate Completed(c: Check) {
    c.source == Authenticated && c.state != Unknown
  }

  /** Completed checks of a monitor in [from, until). */
  function InWindow(monitor: int, from: int, until: int): Check -> bool {
    (c: Check) => Completed(c) && c.monitor == monitor && from <= c.checkedAt < until
  }

  /** The rows read to refresh a bucket, unknown outcomes included. */
  function Authentic(monitor: int, from: int, until: int): Check -> bool {
    (c: Check) => c.source == Authenticated && c.monitor == monitor && from <= c.checkedAt < until
  }

  function Known(): Check -> bool { (c: Check) => c.state != Unknown }

  function IsHealthy(): Check -> bool { (c: Check) => c.state == Healthy }

  function IsEligible(): Check -> bool { (c: Check) => c.state != AuthFailed }

  function Durations(rows: seq<Check>): seq<int> {
    if rows == [] then [] else Durations(rows[..|rows| - 1]) + [rows[|rows| - 1].duration]
  }

  /** The largest duration, read with an accumulator that starts at 0. */
  function Slowest(durations: seq<int>): int {
    if durations == [] then 0
    else
      var rest, last := Slowest(durations[..|durations| - 1]), durations[|durations| - 1];
      if last > rest then last else rest
  }

  function Summary(rows: seq<Check>): Rollup {
    var latencies := Durations(rows);
    Rollup(|rows|, Count(rows, IsHealthy()), Count(rows, IsEligible()), Slowest(latencies),
           NearestRank(latencies, 50), NearestRank(latencies, 95))
  }

  predicate IsBucket(k: Key) {
    k.width in WIDTHS && Aligned(k.start, k.width)
  }

  function BucketRows(checks: seq<Check>, k: Key): seq<Check> {
    Keep(checks, InWindow(k.monitor, k.start, k.start + k.width))
  }

  /** A row is stored exactly for an aligned bucket holding a completed check, and it is the direct summary. */
  ghost predicate RowAgrees(rollups: map<Key, Rollup>, checks: seq<Check>, k: Key) {
    if IsBucket(k) && BucketRows(checks, k) != [] then
      k in rollups && rollups[k] == Summary(BucketRows(checks, k))
    else
      k !in rollups
  }

  ghost predicate Agrees(rollups: map<Key, Rollup>, checks: seq<Check>) {
    forall k :: RowAgrees(rollups, checks, k)
  }

  function Refreshed(rollups: map<Key, Rollup>, checks: seq<Check>, k: Key): map<Key, Rollup> {
    if BucketRows(checks, k) == [] then rollups - {k} else rollups[k := Summary(BucketRows(checks, k))]
  }

  /** The raw checks leave only one possible rollup table, however it was built. */
  lemma AgreementIsUnique(a: map<Key, Rollup>, b: map<Key, Rollup>, checks: seq<Check>)
    requires Agrees(a, checks) && Agrees(b, checks)
    ensures a == b
  {
    forall k
      ensures k in a <==> k in b
      ensures k in a ==> a[k] == b[k]
    {
      assert RowAgrees(a, checks, k) && RowAgrees(b, checks, k);
    }
  }

  /** Refreshing a bucket makes its row agree and leaves every other row alone. */
  lemma RefreshedAgrees(rollups: map<Key, Rollup>, checks: seq<Check>, k: Key, other: Key, before: seq<Check>)
    requires IsBucket(k)
    ensures RowAgrees(Refreshed(rollups, checks, k), checks, k)
    ensures other != k && RowAgrees(rollups, before, other) ==> RowAgrees(Refreshed(rollups, checks, k), before, other)
  {
  }

  // ----- How a change of the raw checks changes a bucket -----

  function KeyOf(c: Check, width: int): Key {
    Key(c.monitor, width, BucketStartFor(c.checkedAt, width))
  }

  /** An aligned bucket covers a check exactly when it is the bucket the check snaps to. */
  lemma CoversIffKeyOf(c: Check, k: Key)
    requires IsBucket(k)
    ensures InWindow(k.monitor, k.start, k.start + k.width)(c) <==> Completed(c) && k == KeyOf(c, k.width)
  {
    BucketContains(c.checkedAt, k.width);
    if k.start <= c.checkedAt < k.start + k.width {
      BucketUnique(c.checkedAt, k.width, k.start);
    }
  }

  lemma KeyIsBucket(c: Check, width: int)
    requires width in WIDTHS
    ensures IsBucket(KeyOf(c, width))
  {
    BucketContains(c.checkedAt, width);
  }

  lemma InsertedBucket(checks: seq<Check>, c: Check, k: Key)
    requires IsBucket(k)
    ensures BucketRows(checks + [c], k) ==
            if Completed(c) && k == KeyOf(c, k.width) then BucketRows(checks, k) + [c] else BucketRows(checks, k)
  {
    KeepSnoc(checks, c, InWindow(k.monitor, k.start, k.start + k.width));
    CoversIffKeyOf(c, k);
  }

  const NOTHING := Rollup(0, 0, 0, 0, None, None)

  /** A bucket's row after one more check: each counter goes up by what the check's state says. */
  predicate CountsOneMore(before: Rollup, after: Rollup, state: State, duration: int) {
    && after.total == before.total + 1
    && after.healthy == before.healthy + (if state == Healthy then 1 else 0)
    && after.eligible == before.eligible + (if state == AuthFailed then 0 else 1)
    && after.slowest == (if duration > before.slowest then duration else before.slowest)
  }

  /** What recording one check does to the row of a bucket. */
  ghost predicate RowFollows(before: map<Key, Rollup>, after: map<Key, Rollup>, c: Check, k: Key) {
    if c.source == Authenticated && c.state != Unknown
       && k.monitor == c.monitor && k.start <= c.checkedAt < k.start + k.width
    then k in after && CountsOneMore(if k in before then before[k] else NOTHING, after[k], c.state, c.duration)
    else (k in after <==> k in before) && (k in after ==> after[k] == before[k])
  }

  lemma SummarySnoc(rows: seq<Check>, c: Check)
    ensures CountsOneMore(Summary(rows), Summary(rows + [c]), c.state, c.duration)
  {
    CountSnoc(rows, c, IsHealthy());
    CountSnoc(rows, c, IsEligible());
    DurationsSnoc(rows, c);
    SlowestSnoc(Durations(rows), c.duration);
  }

  lemma EmptySummary()
    ensures Summary([]) == NOTHING
  {
  }

  lemma DurationsSnoc(rows: seq<Check>, c: Check)
    ensures Durations(rows + [c]) == Durations(rows) + [c.duration]
  {
    assert (rows + [c])[..|rows|] == rows;
  }

  lemma SlowestSnoc(durations: seq<int>, d: int)
    ensures Slowest(durations + [d]) == if d > Slowest(durations) then d else Slowest(durations)
  {
    assert (durations + [d])[..|durations|] == durations;
  }

  /** A recorded check moves exactly the rows of the buckets it lies in, by one. */
  lemma RecordedRows(before: map<Key, Rollup>, after: map<Key, Rollup>, checks: seq<Check>, c: Check)
    requires Agrees(before, checks) && Agrees(after, checks + [c])
    ensures forall k :: IsBucket(k) ==> RowFollows(before, after, c, k)
  {
    EmptySummary();
    forall k | IsBucket(k)
      ensures RowFollows(before, after, c, k)
    {
      assert RowAgrees(before, checks, k) && RowAgrees(after, checks + [c], k);
      InsertedBucket(checks, c, k);
      CoversIffKeyOf(c, k);
      SummarySnoc(BucketRows(checks, k), c);
    }
  }

  /** Removing some checks leaves a bucket alone when it holds none of them. */
  lemma FilteredBucket(checks: seq<Check>, keep: Check -> bool, k: Key)
    requires forall c :: c in checks && InWindow(k.monitor, k.start, k.start + k.width)(c) ==> keep(c)
    ensures BucketRows(Keep(checks, keep), k) == BucketRows(checks, k)
  {
  }

  /** Removing some checks empties a bucket that holds no others. */
  lemma EmptiedBucket(checks: seq<Check>, keep: Check -> bool, k: Key)
    requires forall c :: c in checks && InWindow(k.monitor, k.start, k.start + k.width)(c) ==> !keep(c)
    ensures BucketRows(Keep(checks, keep), k) == []
  {
  }

  lemma EmptyBucket(checks: seq<Check>, k: Key, c: Check)
    requires BucketRows(checks, k) == [] && c in checks
    ensures !InWindow(k.monitor, k.start, k.start + k.width)(c)
  {
    KeepMember(checks, InWindow(k.monitor, k.start, k.start + k.width), c);
  }

  // ----- What a summary says -----

  lemma {:induction false} DurationsMember(rows: seq<Check>)
    ensures |Durations(rows)| == |rows|
    ensures forall i :: 0 <= i < |rows| ==> Durations(rows)[i] == rows[i].duration
  {
    if rows != [] {
      DurationsMember(rows[..|rows| - 1]);
    }
  }

  function Took(p: int -> bool): Check -> bool {
    (c: Check) => p(c.duration)
  }

  lemma {:induction false} CountDurations(rows: seq<Check>, p: int -> bool)
    ensures Count(Durations(rows), p) == Count(rows, Took(p))
  {
    if rows != [] {
      CountDurations(rows[..|rows| - 1], p);
      CountSnoc(Durations(rows[..|rows| - 1]), rows[|rows| - 1].duration, p);
    }
  }

  lemma {:induction false} SlowestIsLargest(durations: seq<int>)
    ensures Slowest(durations) >= 0
    ensures forall d :: d in durations ==> d <= Slowest(durations)
    ensures Slowest(durations) == 0 || Slowest(durations) in durations
  {
    if durations != [] {
      var init := durations[..|durations| - 1];
      SlowestIsLargest(init);
      assert durations == init + [durations[|durations| - 1]];
    }
  }

  /** The stored percentiles of a bucket are ordered and bounded by its slowest check. */
  lemma SummaryOrdered(rows: seq<Check>)
    requires rows != []
    ensures Summary(rows).p50.Some? && Summary(rows).p95.Some?
    ensures Summary(rows).p50.value <= Summary(rows).p95.value <= Summary(rows).slowest
  {
    DurationsMember(rows);
    NearestRankMonotone(Durations(rows), 50, 95);
    SlowestIsLargest(Durations(rows));
  }
}
