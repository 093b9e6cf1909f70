/** The overview's p95: the nearest rank over the newest healthy checks, read with two seeks. */
module RecentLatency {
  import opened Rows
  import opened Schema
  import opened OrderStatistics
  import opened Rollups
  import opened HistoryTables
  import Paging

  /** How many healthy checks a latency sample may hold. */
  const SAMPLES := 1000

  function HealthySince(monitor: int, cutoff: int): Check -> bool {
    (c: Check) => c.monitor == monitor && c.source == Authenticated && c.checkedAt >= cutoff && c.state == Healthy
  }

  ghost predicate Distinct(rows: seq<Check>) {
    forall i, j :: 0 <= i < j < |rows| ==> rows[i] != rows[j]
  }

  /** What ORDER BY checked_at DESC LIMIT may take: which checks of the last second it takes is left open. */
  ghost predicate TakesNewest(taken: seq<Check>, rows: seq<Check>) {
    && |taken| == (if |rows| < SAMPLES then |rows| else SAMPLES)
    && Distinct(taken)
    && (forall c :: c in taken ==> c in rows)
    && (forall c, r :: c in rows && c !in taken && r in taken ==> c.checkedAt <= r.checkedAt)
  }

  lemma FrontIsNewest(log: seq<Check>, n: nat, c: Check, r: Check)
    requires Paging.Descending(log) && n <= |log|
    requires c in log && c !in log[..n] && r in log[..n]
    ensures c.checkedAt <= r.checkedAt
  {
    var i :| 0 <= i < |log| && log[i] == c;
    var j :| 0 <= j < n && log[..n][j] == r;
    forall k | 0 <= k < n
      ensures log[k] in log[..n]
    {
      assert log[..n][k] == log[k];
    }
  }

  /** There is always something to take: the front of the log of those rows. */
  lemma NewestTaken(log: seq<Check>, rows: seq<Check>)
    requires IdsAscend(rows) && log == Paging.Newest(rows)
    ensures TakesNewest(if |log| < SAMPLES then log else log[..SAMPLES], rows)
  {
    Paging.NewestIsSorted(rows);
    var n := if |log| < SAMPLES then |log| else SAMPLES;
    var taken := log[..n];
    assert taken == if |log| < SAMPLES then log else log[..SAMPLES];
    forall c, r | c in rows && c !in taken && r in taken
      ensures c.checkedAt <= r.checkedAt
    {
      FrontIsNewest(log, n, c, r);
    }
    forall i, j | 0 <= i < j < n
      ensures taken[i] != taken[j]
    {
      assert Paging.Precedes(log[i], log[j]);
    }
  }

  lemma NothingHealthy(checks: seq<Check>, p: Check -> bool)
    ensures |Keep(checks, p)| == 0 <==> forall c :: c in checks ==> !p(c)
  {
    var rows := Keep(checks, p);
    if |rows| > 0 {
      KeepMember(checks, p, rows[0]);
    } else {
      forall c | c in checks
        ensures !p(c)
      {
        KeepMember(checks, p, c);
      }
    }
  }

  /** ORDER BY duration_ms LIMIT 1 OFFSET. */
  method SeekSample(durations: seq<int>, offset: nat) returns (v: int)
    requires offset < |durations|
    ensures HasRank(durations, v, offset + 1)
  {
    RankOfSorted(durations, offset + 1);
    v := SortBy(durations, Itself())[offset];
  }

  /** The figure of one monitor: left out without a sample; a failed query fails the whole response. */
  datatype Figure = NoSample | Failed | P95Of(value: int)

  /**
   * The count and the value are separate queries, in no transaction: checks may come and go in between,
   * and each query settles ties its own way. The value is the sample of the rank the count asked for, and the
   * query fails exactly when too few samples are left for that rank.
   */
  method P95(
    checks: seq<Check>, later: seq<Check>, monitor: int, cutoff: int, counted: seq<Check>, taken: seq<Check>)
    returns (p95: Figure)
    requires TakesNewest(counted, Keep(checks, HealthySince(monitor, cutoff)))
    requires TakesNewest(taken, Keep(later, HealthySince(monitor, cutoff)))
    ensures p95 == NoSample <==>
            forall c :: c in checks ==>
              !(c.monitor == monitor && c.source == Authenticated && c.state == Healthy && c.checkedAt >= cutoff)
    ensures p95 == Failed <==> |taken| < Rank(95, |counted|)
    ensures p95.P95Of? ==> HasRank(Durations(taken), p95.value, Rank(95, |counted|))
  {
    var healthy := |counted|;
    NothingHealthy(checks, HealthySince(monitor, cutoff));
    DurationsMember(taken);
    assert forall c :: HealthySince(monitor, cutoff)(c) <==>
                       c.monitor == monitor && c.source == Authenticated && c.state == Healthy && c.checkedAt >= cutoff;
    if healthy == 0 {
      return NoSample;
    }
    RankInRange(95, healthy);
    var offset := (healthy * 95 + 99) / 100 - 1;
    if offset >= |taken| {
      return Failed;
    }
    var found := SeekSample(Durations(taken), offset);
    p95 := P95Of(found);
  }

  /** Over one state of the table the two queries fit together: the value is there and is the 95th percentile. */
  lemma SameStateSameSample(rows: seq<Check>, counted: seq<Check>, taken: seq<Check>, v: int)
    requires TakesNewest(counted, rows) && TakesNewest(taken, rows) && rows != []
    ensures |taken| >= Rank(95, |counted|)
    ensures HasRank(Durations(taken), v, Rank(95, |counted|)) <==> NearestRank(Durations(taken), 95) == Some(v)
  {
    DurationsMember(taken);
    RankInRange(95, |counted|);
    NearestRankExact(Durations(taken), 95, v);
  }

  // ----- When nothing is cut off -----

  ghost function Matching(rows: seq<Check>, p: Check -> bool): (found: set<Check>)
    ensures forall c :: c in found <==> c in rows && p(c)
  {
    set c | c in rows && p(c)
  }

  lemma MatchingSnoc(rows: seq<Check>, row: Check, p: Check -> bool)
    requires row !in rows
    ensures |Matching(rows + [row], p)| == |Matching(rows, p)| + if p(row) then 1 else 0
  {
    var before := Matching(rows, p);
    assert row !in before;
    assert Matching(rows + [row], p) == if p(row) then before + {row} else before;
  }

  /** Among distinct rows a count is the size of a set. */
  lemma {:induction false} CountIsSize(rows: seq<Check>, p: Check -> bool)
    requires Distinct(rows)
    ensures Count(rows, p) == |Matching(rows, p)|
  {
    if rows != [] {
      var init, last := rows[..|rows| - 1], rows[|rows| - 1];
      assert rows == init + [last];
      CountIsSize(init, p);
      MatchingSnoc(init, last, p);
    }
  }

  lemma SubsetOfSameSize(small: set<Check>, large: set<Check>)
    requires small <= large && |small| == |large|
    ensures small == large
  {
    var rest := large - small;
    assert large == small + rest;
    assert (forall x :: x !in rest) ==> rest == {};
  }

  function Anything(): Check -> bool { (c: Check) => true }

  /** Rows taken without a cut are all of them, so every count is the same. */
  lemma SameRowsSameCounts(taken: seq<Check>, rows: seq<Check>, p: Check -> bool)
    requires Distinct(taken) && Distinct(rows) && |taken| == |rows| && forall c :: c in taken ==> c in rows
    ensures Count(taken, p) == Count(rows, p)
  {
    KeepAll(taken, Anything());
    KeepAll(rows, Anything());
    KeepLength(taken, Anything());
    KeepLength(rows, Anything());
    CountIsSize(taken, Anything());
    CountIsSize(rows, Anything());
    SubsetOfSameSize(Matching(taken, Anything()), Matching(rows, Anything()));
    CountIsSize(taken, p);
    CountIsSize(rows, p);
    forall c
      ensures c in Matching(taken, p) <==> c in Matching(rows, p)
    {
      assert c in Matching(taken, Anything()) <==> c in Matching(rows, Anything());
    }
    assert Matching(taken, p) == Matching(rows, p);
  }

  lemma SameCountsSameRank(taken: seq<Check>, rows: seq<Check>, v: int, rank: int)
    requires Distinct(taken) && Distinct(rows) && |taken| == |rows| && forall c :: c in taken ==> c in rows
    requires HasRank(Durations(taken), v, rank)
    ensures HasRank(Durations(rows), v, rank)
  {
    CountDurations(taken, AtMost(v));
    CountDurations(taken, Below(v));
    CountDurations(rows, AtMost(v));
    CountDurations(rows, Below(v));
    SameRowsSameCounts(taken, rows, Took(AtMost(v)));
    SameRowsSameCounts(taken, rows, Took(Below(v)));
    DurationsMember(taken);
    DurationsMember(rows);
    var i :| 0 <= i < |taken| && Durations(taken)[i] == v;
    assert taken[i] in rows;
    var j :| 0 <= j < |rows| && rows[j] == taken[i];
    assert Durations(rows)[j] == v;
  }

  /** Up to a full sample, the overview's percentile is that of every healthy check in the window. */
  lemma WholeWindowExact(rows: seq<Check>, taken: seq<Check>)
    requires Distinct(rows) && 0 < |rows| <= SAMPLES && TakesNewest(taken, rows)
    ensures NearestRank(Durations(taken), 95) == NearestRank(Durations(rows), 95)
  {
    DurationsMember(taken);
    DurationsMember(rows);
    NearestRankMonotone(Durations(taken), 95, 95);
    var v := NearestRank(Durations(taken), 95).value;
    NearestRankExact(Durations(taken), 95, v);
    SameCountsSameRank(taken, rows, v, Rank(95, |rows|));
    NearestRankExact(Durations(rows), 95, v);
  }
}
