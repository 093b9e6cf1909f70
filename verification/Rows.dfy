/** Selecting and counting rows of a table, in the order the rows are stored. */
module Rows {

  datatype Option<+T> = None | Some(value: T)

  /** The rows that satisfy a condition, as `SELECT ... WHERE p` returns them. */
  function Keep<T>(rows: seq<T>, p: T -> bool): (kept: seq<T>)
    ensures |kept| <= |rows|
  {
    if rows == [] then []
    else
      var rest := Keep(rows[..|rows| - 1], p);
      var row := rows[|rows| - 1];
      if p(row) then rest + [row] else rest
  }

  /** How many rows satisfy a condition, as `SELECT COUNT(*) ... WHERE p` reports it. */
  function Count<T>(rows: seq<T>, p: T -> bool): nat {
    if rows == [] then 0
    else Count(rows[..|rows| - 1], p) + if p(rows[|rows| - 1]) then 1 else 0
  }

  function Both<T>(p: T -> bool, q: T -> bool): T -> bool {
    x => p(x) && q(x)
  }

  lemma KeepSnoc<T>(rows: seq<T>, row: T, p: T -> bool)
    ensures Keep(rows + [row], p) == if p(row) then Keep(rows, p) + [row] else Keep(rows, p)
  {
  }

  lemma CountSnoc<T>(rows: seq<T>, row: T, p: T -> bool)
    ensures Count(rows + [row], p) == Count(rows, p) + if p(row) then 1 else 0
  {
  }

  /** Extending a prefix by one row; the form a loop over rows needs. */
  lemma PrefixStep<T>(rows: seq<T>, i: nat, p: T -> bool)
    requires i < |rows|
    ensures Keep(rows[..i + 1], p) == if p(rows[i]) then Keep(rows[..i], p) + [rows[i]] else Keep(rows[..i], p)
    ensures Count(rows[..i + 1], p) == Count(rows[..i], p) + if p(rows[i]) then 1 else 0
  {
    assert rows[..i + 1] == rows[..i] + [rows[i]];
    KeepSnoc(rows[..i], rows[i], p);
    CountSnoc(rows[..i], rows[i], p);
  }

  lemma {:induction false} KeepMember<T>(rows: seq<T>, p: T -> bool, x: T)
    ensures x in Keep(rows, p) <==> x in rows && p(x)
  {
    if rows != [] {
      KeepMember(rows[..|rows| - 1], p, x);
      assert rows == rows[..|rows| - 1] + [rows[|rows| - 1]];
    }
  }

  lemma {:induction false} KeepSame<T>(rows: seq<T>, p: T -> bool, q: T -> bool)
    requires forall x :: x in rows ==> p(x) == q(x)
    ensures Keep(rows, p) == Keep(rows, q)
    ensures Count(rows, p) == Count(rows, q)
  {
    if rows != [] {
      KeepSame(rows[..|rows| - 1], p, q);
    }
  }

  lemma {:induction false} KeepAll<T>(rows: seq<T>, p: T -> bool)
    requires forall x :: x in rows ==> p(x)
    ensures Keep(rows, p) == rows
  {
    if rows != [] {
      KeepAll(rows[..|rows| - 1], p);
    }
  }

  lemma {:induction false} KeepNone<T>(rows: seq<T>, p: T -> bool)
    requires forall x :: x in rows ==> !p(x)
    ensures Keep(rows, p) == []
    ensures Count(rows, p) == 0
  {
    if rows != [] {
      KeepNone(rows[..|rows| - 1], p);
    }
  }

  lemma {:induction false} KeepKeep<T>(rows: seq<T>, p: T -> bool, q: T -> bool)
    ensures Keep(Keep(rows, p), q) == Keep(rows, Both(p, q))
    ensures Count(Keep(rows, p), q) == Count(rows, Both(p, q))
  {
    if rows != [] {
      var init, row := rows[..|rows| - 1], rows[|rows| - 1];
      KeepKeep(init, p, q);
      if p(row) {
        KeepSnoc(Keep(init, p), row, q);
        CountSnoc(Keep(init, p), row, q);
      }
    }
  }

  lemma {:induction false} KeepLength<T>(rows: seq<T>, p: T -> bool)
    ensures |Keep(rows, p)| == Count(rows, p)
  {
    if rows != [] {
      KeepLength(rows[..|rows| - 1], p);
    }
  }

  /** A condition that splits into two exclusive cases counts the sum of the cases. */
  lemma {:induction false} CountSplit<T>(rows: seq<T>, whole: T -> bool, left: T -> bool, right: T -> bool)
    requires forall x :: x in rows ==> whole(x) == (left(x) || right(x)) && !(left(x) && right(x))
    ensures Count(rows, whole) == Count(rows, left) + Count(rows, right)
  {
    if rows != [] {
      CountSplit(rows[..|rows| - 1], whole, left, right);
    }
  }

  lemma {:induction false} CountMonotone<T>(rows: seq<T>, p: T -> bool, q: T -> bool)
    requires forall x :: x in rows && p(x) ==> q(x)
    ensures Count(rows, p) <= Count(rows, q)
  {
    if rows != [] {
      CountMonotone(rows[..|rows| - 1], p, q);
    }
  }
}
