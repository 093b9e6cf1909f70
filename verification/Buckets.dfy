/** Epoch-anchored time buckets, computed once in Go and once in SQL. */
module Buckets {

  const QUARTER_HOUR := 900
  const TWO_HOURS := 7200
  const EIGHT_HOURS := 28800
  const DAY := 86400

  /** The stored bucket widths, in the order they are refreshed. */
  const WIDTHS: seq<int> := [QUARTER_HOUR, TWO_HOURS, EIGHT_HOURS]

  /** The `%` of Go and of SQLite: the remainder takes the sign of the dividend. */
  function TruncatedRemainder(a: int, b: int): int
    requires b > 0
  {
    if a >= 0 then a % b else -((-a) % b)
  }

  function ModFloor(value: int, width: int): (r: int)
    requires width > 0
    ensures 0 <= r < width
  {
    var remainder := TruncatedRemainder(value, width);
    if remainder < 0 then remainder + width else remainder
  }

  function BucketStartFor(checkedAt: int, width: int): int {
    if width <= 0 then checkedAt else checkedAt - ModFloor(checkedAt, width)
  }

  /** The bucket expression of the rebuild query. */
  function SqlBucketStart(checkedAt: int, width: int): int
    requires width > 0
  {
    checkedAt - TruncatedRemainder(TruncatedRemainder(checkedAt, width) + width, width)
  }

  predicate Aligned(start: int, width: int) {
    width > 0 && start % width == 0
  }

  lemma MultipleIsAligned(q: int, width: int)
    requires width > 0
    ensures Aligned(q * width, width)
  {
    var p := (q * width) / width;
    assert (q - p) * width == (q * width) % width;
    NoMultipleBetween(q - p, width);
  }

  lemma MultipleBounds(q: int, width: int)
    requires width > 0
    ensures q >= 1 ==> q * width >= width
    ensures q <= -1 ==> q * width <= -width
  {
  }

  lemma NoMultipleBetween(q: int, width: int)
    requires width > 0 && -width < q * width < width
    ensures q == 0
  {
    MultipleBounds(q, width);
  }

  /** Two aligned starts less than a width apart are the same bucket. */
  lemma AlignedApart(a: int, b: int, width: int)
    requires Aligned(a, width) && Aligned(b, width)
    ensures a < b ==> a + width <= b
  {
    var p, q := a / width, b / width;
    assert b - a == (q - p) * width;
    if a < b < a + width {
      NoMultipleBetween(q - p, width);
    }
  }

  /** A timestamp lies in the bucket it is snapped to, before the epoch as well as after it. */
  lemma BucketContains(checkedAt: int, width: int)
    requires width > 0
    ensures Aligned(BucketStartFor(checkedAt, width), width)
    ensures BucketStartFor(checkedAt, width) <= checkedAt < BucketStartFor(checkedAt, width) + width
  {
    var start := BucketStartFor(checkedAt, width);
    if checkedAt >= 0 {
      assert start == (checkedAt / width) * width;
      MultipleIsAligned(checkedAt / width, width);
    } else {
      var q, t := (-checkedAt) / width, (-checkedAt) % width;
      assert -checkedAt == q * width + t;
      if t == 0 {
        assert start == (-q) * width;
        MultipleIsAligned(-q, width);
      } else {
        assert start == (-q - 1) * width;
        MultipleIsAligned(-q - 1, width);
      }
    }
  }

  /** The bucket of a timestamp is the only aligned interval of that width containing it. */
  lemma BucketUnique(checkedAt: int, width: int, start: int)
    requires Aligned(start, width) && start <= checkedAt < start + width
    ensures start == BucketStartFor(checkedAt, width)
  {
    BucketContains(checkedAt, width);
    AlignedApart(start, BucketStartFor(checkedAt, width), width);
    AlignedApart(BucketStartFor(checkedAt, width), start, width);
  }

  /** The SQL expression of the rebuild and the Go helper agree on every timestamp. */
  lemma SqlBucketIsGoBucket(checkedAt: int, width: int)
    requires width > 0
    ensures SqlBucketStart(checkedAt, width) == BucketStartFor(checkedAt, width)
  {
    var r := TruncatedRemainder(checkedAt, width);
    if r < 0 {
      SmallRemainder(r + width, width);
    } else {
      SmallRemainder(r, width);
      RemainderPlusWidth(r, width);
    }
  }

  lemma SmallRemainder(r: int, width: int)
    requires 0 <= r < width
    ensures r % width == r
  {
  }

  lemma RemainderPlusWidth(r: int, width: int)
    requires 0 <= r < width
    ensures (r + width) % width == r
  {
    var q := (r + width) / width;
    var back := (r + width) % width;
    assert (q - 1) * width == r - back;
    NoMultipleBetween(q - 1, width);
  }

  /** UTC midnight is a boundary of every stored bucket width. */
  lemma MidnightIsABoundary(midnight: int, width: int)
    requires Aligned(midnight, DAY) && width in WIDTHS
    ensures Aligned(midnight, width)
  {
    var days := midnight / DAY;
    var perDay := if width == QUARTER_HOUR then 96 else if width == TWO_HOURS then 12 else 3;
    assert midnight == (days * perDay) * width;
    MultipleIsAligned(days * perDay, width);
  }
}
