/** Nearest-rank percentiles, and percentiles of weighted samples. */
module OrderStatistics {
  import opened Rows

  // ----- Sorting: the contract of the library sort -----

  function InsertBy<T>(sorted: seq<T>, x: T, key: T -> int): seq<T> {
    if sorted == [] || key(sorted[|sorted| - 1]) <= key(x) then sorted + [x]
    else InsertBy(sorted[..|sorted| - 1], x, key) + [sorted[|sorted| - 1]]
  }

  function SortBy<T>(rows: seq<T>, key: T -> int): seq<T> {
    if rows == [] then []
    else InsertBy(SortBy(rows[..|rows| - 1], key), rows[|rows| - 1], key)
  }

  ghost predicate Ascending<T>(rows: seq<T>, key: T -> int) {
    forall i, j :: 0 <= i < j < |rows| ==> key(rows[i]) <= key(rows[j])
  }

  lemma {:induction false} InsertByMember<T>(sorted: seq<T>, x: T, key: T -> int, y: T)
    ensures y in InsertBy(sorted, x, key) <==> y in sorted || y == x
  {
    if sorted != [] && key(sorted[|sorted| - 1]) > key(x) {
      InsertByMember(sorted[..|sorted| - 1], x, key, y);
      assert sorted == sorted[..|sorted| - 1] + [sorted[|sorted| - 1]];
    }
  }

  lemma {:induction false} InsertByAscending<T>(sorted: seq<T>, x: T, key: T -> int)
    requires Ascending(sorted, key)
    ensures Ascending(InsertBy(sorted, x, key), key)
    ensures |InsertBy(sorted, x, key)| == |sorted| + 1
  {
    if sorted != [] && key(sorted[|sorted| - 1]) > key(x) {
      var init, last := sorted[..|sorted| - 1], sorted[|sorted| - 1];
      InsertByAscending(init, x, key);
      forall y | y in InsertBy(init, x, key)
        ensures key(y) <= key(last)
      {
        InsertByMember(init, x, key, y);
      }
    }
  }

  lemma {:induction false} InsertByCount<T>(sorted: seq<T>, x: T, key: T -> int, p: T -> bool)
    ensures Count(InsertBy(sorted, x, key), p) == Count(sorted, p) + if p(x) then 1 else 0
  {
    if sorted == [] || key(sorted[|sorted| - 1]) <= key(x) {
      CountSnoc(sorted, x, p);
    } else {
      var init, last := sorted[..|sorted| - 1], sorted[|sorted| - 1];
      InsertByCount(init, x, key, p);
      CountSnoc(InsertBy(init, x, key), last, p);
    }
  }

  lemma {:induction false} SortByAscending<T>(rows: seq<T>, key: T -> int)
    ensures Ascending(SortBy(rows, key), key)
    ensures |SortBy(rows, key)| == |rows|
  {
    if rows != [] {
      SortByAscending(rows[..|rows| - 1], key);
      InsertByAscending(SortBy(rows[..|rows| - 1], key), rows[|rows| - 1], key);
    }
  }

  /** Sorting keeps every row as often as it occurs, so no count changes. */
  lemma {:induction false} SortByCount<T>(rows: seq<T>, key: T -> int, p: T -> bool)
    ensures Count(SortBy(rows, key), p) == Count(rows, p)
  {
    if rows != [] {
      SortByCount(rows[..|rows| - 1], key, p);
      InsertByCount(SortBy(rows[..|rows| - 1], key), rows[|rows| - 1], key, p);
    }
  }

  lemma {:induction false} SortByMember<T>(rows: seq<T>, key: T -> int, y: T)
    ensures y in SortBy(rows, key) <==> y in rows
  {
    if rows != [] {
      SortByMember(rows[..|rows| - 1], key, y);
      InsertByMember(SortBy(rows[..|rows| - 1], key), rows[|rows| - 1], key, y);
      assert rows == rows[..|rows| - 1] + [rows[|rows| - 1]];
    }
  }

  lemma {:induction false} CountConcat<T>(a: seq<T>, b: seq<T>, p: T -> bool)
    ensures Count(a + b, p) == Count(a, p) + Count(b, p)
  {
    if b == [] {
      assert a + b == a;
    } else {
      var init := b[..|b| - 1];
      CountConcat(a, init, p);
      assert a + b == (a + init) + [b[|b| - 1]];
      CountSnoc(a + init, b[|b| - 1], p);
    }
  }

  // ----- The nearest-rank percentile -----

  function AtMost(v: int): int -> bool { x => x <= v }

  function Below(v: int): int -> bool { x => x < v }

  /** A sample is its own sort key. */
  function Itself(): int -> int { x => x }

  /** The rank that k percent of n samples round up to. */
  function Rank(k: int, n: int): int { (k * n + 99) / 100 }

  /** The k-th percentile, k in percent: copy, sort, index. */
  function NearestRank(values: seq<int>, k: int): Option<int> {
    if |values| == 0 || k <= 0 || k > 100 then None
    else
      var ordered := SortBy(values, Itself());
      RankInRange(k, |values|);
      SortByAscending(values, Itself());
      Some(ordered[Rank(k, |values|) - 1])
  }

  lemma RankInRange(k: int, n: int)
    requires 0 < k <= 100 && n > 0
    ensures 1 <= Rank(k, n) <= n
    ensures k * n <= 100 * Rank(k, n) < k * n + 100
  {
    var product := k * n;
    assert 0 < product <= 100 * n;
    assert Rank(k, n) == (product + 99) / 100;
  }

  /** v is the sample of the given rank: enough samples do not exceed it and too few lie below it. */
  ghost predicate HasRank(values: seq<int>, v: int, rank: int) {
    && v in values
    && Count(values, AtMost(v)) >= rank
    && Count(values, Below(v)) < rank
  }

  lemma HasRankUnique(values: seq<int>, v: int, w: int, rank: int)
    requires HasRank(values, v, rank) && HasRank(values, w, rank)
    ensures v == w
  {
    if v < w {
      CountMonotone(values, AtMost(v), Below(w));
    } else if w < v {
      CountMonotone(values, AtMost(w), Below(v));
    }
  }

  lemma SortedCounts(ordered: seq<int>, i: nat)
    requires i < |ordered| && Ascending(ordered, Itself())
    ensures Count(ordered, AtMost(ordered[i])) >= i + 1
    ensures Count(ordered, Below(ordered[i])) <= i
  {
    var v := ordered[i];
    SortedPrefix(ordered, i + 1, v);
    SortedSuffix(ordered, i, v);
  }

  lemma SortedPrefix(ordered: seq<int>, n: nat, v: int)
    requires n <= |ordered| && forall j :: 0 <= j < n ==> ordered[j] <= v
    ensures Count(ordered, AtMost(v)) >= n
  {
    assert ordered == ordered[..n] + ordered[n..];
    CountConcat(ordered[..n], ordered[n..], AtMost(v));
    KeepAll(ordered[..n], AtMost(v));
    KeepLength(ordered[..n], AtMost(v));
  }

  lemma SortedSuffix(ordered: seq<int>, n: nat, v: int)
    requires n <= |ordered| && forall j :: n <= j < |ordered| ==> ordered[j] >= v
    ensures Count(ordered, Below(v)) <= n
  {
    assert ordered == ordered[..n] + ordered[n..];
    CountConcat(ordered[..n], ordered[n..], Below(v));
    KeepNone(ordered[n..], Below(v));
    KeepLength(ordered[..n], Below(v));
  }

  lemma RankOfSorted(values: seq<int>, rank: int)
    requires 1 <= rank <= |values|
    ensures |SortBy(values, Itself())| == |values|
    ensures HasRank(values, SortBy(values, Itself())[rank - 1], rank)
  {
    var ordered := SortBy(values, Itself());
    SortByAscending(values, Itself());
    var r := ordered[rank - 1];
    SortedCounts(ordered, rank - 1);
    SortByCount(values, Itself(), AtMost(r));
    SortByCount(values, Itself(), Below(r));
    SortByMember(values, Itself(), r);
  }

  /** The result is exactly the sample of the rank: both directions. */
  lemma NearestRankExact(values: seq<int>, k: int, v: int)
    requires |values| > 0 && 0 < k <= 100
    ensures NearestRank(values, k) == Some(v) <==> HasRank(values, v, Rank(k, |values|))
  {
    var ordered, rank := SortBy(values, Itself()), Rank(k, |values|);
    SortByAscending(values, Itself());
    RankInRange(k, |values|);
    var r := ordered[rank - 1];
    RankOfSorted(values, rank);
    assert NearestRank(values, k) == Some(r);
    if HasRank(values, v, rank) {
      HasRankUnique(values, v, r, rank);
    }
  }

  lemma RankMonotone(j: int, k: int, n: int)
    requires 0 < j <= k <= 100 && n > 0
    ensures Rank(j, n) <= Rank(k, n)
  {
    assert j * n <= k * n;
  }

  /** A higher percentile of the same samples is no smaller, and none exceeds the largest sample. */
  lemma NearestRankMonotone(values: seq<int>, j: int, k: int)
    requires |values| > 0 && 0 < j <= k <= 100
    ensures NearestRank(values, j).Some? && NearestRank(values, k).Some?
    ensures NearestRank(values, j).value <= NearestRank(values, k).value
    ensures NearestRank(values, k).value in values
  {
    var v, w := NearestRank(values, j).value, NearestRank(values, k).value;
    NearestRankExact(values, j, v);
    NearestRankExact(values, k, w);
    RankMonotone(j, k, |values|);
    if w < v {
      CountMonotone(values, AtMost(w), Below(v));
    }
  }
}
