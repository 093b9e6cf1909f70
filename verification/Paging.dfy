/** Keyset paging through the check log, over a table that may change between the pages. */
module Paging {
  import opened Rows
  import opened Schema
  import opened HistoryTables

  /** The position of a row in the log; a page that continues from it starts strictly after it. */
  datatype Cursor = Cursor(time: int, id: int)

  function CursorOf(c: Check): Cursor { Cursor(c.checkedAt, c.id) }

  /** The WHERE clause: everything, or what comes strictly after the cursor. */
  function After(cursor: Option<Cursor>): Check -> bool {
    (c: Check) =>
      || cursor == None
      || c.checkedAt < cursor.value.time
      || (c.checkedAt == cursor.value.time && c.id < cursor.value.id)
  }

  /** Newest first; the id decides between checks of the same second. */
  predicate Precedes(a: Check, b: Check) {
    a.checkedAt > b.checkedAt || (a.checkedAt == b.checkedAt && a.id > b.id)
  }

  function Insert(newest: seq<Check>, c: Check): seq<Check> {
    if newest == [] || Precedes(newest[|newest| - 1], c) then newest + [c]
    else Insert(newest[..|newest| - 1], c) + [newest[|newest| - 1]]
  }

  /** ORDER BY checked_at DESC, id DESC. */
  function Newest(rows: seq<Check>): seq<Check> {
    if rows == [] then [] else Insert(Newest(rows[..|rows| - 1]), rows[|rows| - 1])
  }

  ghost predicate Descending(rows: seq<Check>) {
    forall i, j :: 0 <= i < j < |rows| ==> Precedes(rows[i], rows[j])
  }

  lemma {:induction false} InsertMember(newest: seq<Check>, c: Check, x: Check)
    ensures x in Insert(newest, c) <==> x in newest || x == c
    ensures |Insert(newest, c)| == |newest| + 1
  {
    if newest != [] && !Precedes(newest[|newest| - 1], c) {
      InsertMember(newest[..|newest| - 1], c, x);
      assert newest == newest[..|newest| - 1] + [newest[|newest| - 1]];
    }
  }

  lemma {:induction false} InsertDescends(newest: seq<Check>, c: Check)
    requires Descending(newest) && forall x :: x in newest ==> x.id != c.id
    ensures Descending(Insert(newest, c))
  {
    if newest != [] && !Precedes(newest[|newest| - 1], c) {
      var init, last := newest[..|newest| - 1], newest[|newest| - 1];
      assert last in newest && forall x :: x in init ==> x in newest;
      InsertDescends(init, c);
      forall x | x in Insert(init, c)
        ensures Precedes(x, last)
      {
        InsertMember(init, c, x);
      }
    }
  }

  /** The log is a rearrangement of the rows, newest first. */
  lemma {:induction false} NewestIsSorted(rows: seq<Check>)
    requires IdsAscend(rows)
    ensures Descending(Newest(rows)) && |Newest(rows)| == |rows|
    ensures forall x :: x in Newest(rows) <==> x in rows
  {
    if rows != [] {
      var init, last := rows[..|rows| - 1], rows[|rows| - 1];
      NewestIsSorted(init);
      InsertDescends(Newest(init), last);
      assert rows == init + [last];
      forall x
        ensures x in Newest(rows) <==> x in rows
      {
        InsertMember(Newest(init), last, x);
      }
      InsertMember(Newest(init), last, last);
    }
  }

  // ----- One page -----

  datatype Page = Page(rows: seq<Check>, next: Option<Cursor>)

  datatype Response = InvalidLimit | InvalidCursor | Ok(page: Page)

  /** What a page shows: the first rows after the cursor, and where to continue if there are more. */
  function PageOf(checks: seq<Check>, cursor: Option<Cursor>, limit: nat): Page
    requires limit > 0
  {
    var rows := Listing(checks, cursor);
    if |rows| > limit then Page(rows[..limit], Some(CursorOf(rows[limit - 1]))) else Page(rows, None)
  }

  /** Reads the selected rows, one more than the page holds if there are as many; that one yields the cursor. */
  method ReadPage(rows: seq<Check>, size: nat) returns (page: Page)
    requires 0 < size && |rows| <= size + 1
    ensures page == if |rows| > size then Page(rows[..size], Some(CursorOf(rows[size - 1]))) else Page(rows, None)
  {
    var out: seq<Check> := [];
    for i := 0 to |rows|
      invariant i <= size && out == rows[..i]
    {
      if |out| == size {
        return Page(out, Some(CursorOf(out[|out| - 1])));
      }
      out := out + [rows[i]];
    }
    page := Page(out, None);
  }

  /** Lists one page. The query looks one row ahead; the cursor is that of the last row returned. */
  method ListAllChecks(checks: seq<Check>, limit: Option<int>, before: Option<Cursor>) returns (r: Response)
    ensures limit.Some? && !(0 < limit.value <= 200) ==> r == InvalidLimit
    ensures (limit.Some? ==> 0 < limit.value <= 200) && before.Some? && before.value.id < 1 ==> r == InvalidCursor
    ensures (limit.Some? ==> 0 < limit.value <= 200) && (before.Some? ==> before.value.id >= 1) ==>
              r == Ok(PageOf(checks, before, if limit.Some? then limit.value else 100))
  {
    var size := 100;
    if limit.Some? {
      if 0 < limit.value <= 200 {
        size := limit.value;
      } else {
        return InvalidLimit;
      }
    }
    if before.Some? && before.value.id < 1 {
      return InvalidCursor;
    }
    var ordered := Listing(checks, before);
    var page := ReadPage(if |ordered| > size + 1 then ordered[..size + 1] else ordered, size);
    r := Ok(page);
  }

  /** All rows after a cursor, newest first. */
  function Listing(checks: seq<Check>, cursor: Option<Cursor>): seq<Check> {
    Newest(Keep(checks, After(cursor)))
  }

  lemma ListingDescends(checks: seq<Check>, cursor: Option<Cursor>)
    requires IdsAscend(checks)
    ensures Descending(Listing(checks, cursor)) && |Listing(checks, cursor)| == |Keep(checks, After(cursor))|
  {
    KeepAscends(checks, After(cursor));
    NewestIsSorted(Keep(checks, After(cursor)));
  }

  lemma ListingMember(checks: seq<Check>, cursor: Option<Cursor>, x: Check)
    requires IdsAscend(checks)
    ensures x in Listing(checks, cursor) <==> x in checks && After(cursor)(x)
  {
    KeepAscends(checks, After(cursor));
    NewestIsSorted(Keep(checks, After(cursor)));
    KeepMember(checks, After(cursor), x);
  }

  lemma OrderIsPosition(rows: seq<Check>, p: nat, q: nat)
    requires Descending(rows) && p < |rows| && q < |rows|
    ensures Precedes(rows[p], rows[q]) <==> p < q
    ensures rows[p] == rows[q] <==> p == q
  {
  }

  /** Cutting a listing after n rows: the front is what the cursor of its last row does not reach. */
  lemma CutMember(rows: seq<Check>, n: nat, x: Check)
    requires Descending(rows) && 0 < n <= |rows|
    ensures x in rows[n..] <==> x in rows && After(Some(CursorOf(rows[n - 1])))(x)
    ensures x in rows[..n] <==> x in rows && !After(Some(CursorOf(rows[n - 1])))(x)
  {
  }

  /** A page holds exactly the rows of its table after its cursor that the next page will not be asked for. */
  lemma PageMember(checks: seq<Check>, cursor: Option<Cursor>, limit: nat, x: Check)
    requires limit > 0 && IdsAscend(checks)
    ensures var page := PageOf(checks, cursor, limit);
      && (x in page.rows <==> x in checks && After(cursor)(x) && (page.next == None || !After(page.next)(x)))
      && Descending(page.rows)
  {
    ListingDescends(checks, cursor);
    ListingMember(checks, cursor, x);
    if |Listing(checks, cursor)| > limit {
      CutMember(Listing(checks, cursor), limit, x);
    }
  }

  /** The cursor a page hands out continues strictly after the cursor it was given. */
  lemma CursorsAdvance(checks: seq<Check>, cursor: Option<Cursor>, limit: nat, x: Check)
    requires limit > 0 && IdsAscend(checks)
    ensures var next := PageOf(checks, cursor, limit).next;
      next.Some? && After(next)(x) ==> After(cursor)(x)
  {
    var rows := Listing(checks, cursor);
    if |rows| > limit {
      ListingMember(checks, cursor, rows[limit - 1]);
      assert rows[limit - 1] in rows;
    }
  }

  // ----- Following the pages of an unchanged table -----

  lemma SameHead(a: seq<Check>, b: seq<Check>)
    requires Descending(a) && Descending(b) && a != [] && b != [] && forall x :: x in a <==> x in b
    ensures a[0] == b[0]
  {
    assert a[0] in b && b[0] in a;
    var i :| 0 <= i < |b| && b[i] == a[0];
    var j :| 0 <= j < |a| && a[j] == b[0];
    OrderIsPosition(b, 0, i);
    OrderIsPosition(a, 0, j);
  }

  lemma TailMember(a: seq<Check>, x: Check)
    requires Descending(a) && a != []
    ensures x in a[1..] <==> x in a && x != a[0]
  {
  }

  lemma EmptyTogether(a: seq<Check>, b: seq<Check>)
    requires forall x :: x in a <==> x in b
    ensures a == [] <==> b == []
  {
    if a != [] {
      assert a[0] in b;
    }
    if b != [] {
      assert b[0] in a;
    }
  }

  /** Two newest-first listings of the same rows are the same listing. */
  lemma {:induction false} DescendingUnique(a: seq<Check>, b: seq<Check>)
    requires Descending(a) && Descending(b) && forall x :: x in a <==> x in b
    ensures a == b
  {
    EmptyTogether(a, b);
    if a != [] {
      SameHead(a, b);
      forall x
        ensures x in a[1..] <==> x in b[1..]
      {
        TailMember(a, x);
        TailMember(b, x);
      }
      DescendingUnique(a[1..], b[1..]);
      assert a == [a[0]] + a[1..] && b == [b[0]] + b[1..];
    }
  }

  lemma RestMember(checks: seq<Check>, cursor: Option<Cursor>, limit: nat, x: Check)
    requires limit > 0 && IdsAscend(checks) && PageOf(checks, cursor, limit).next.Some?
    ensures x in Listing(checks, PageOf(checks, cursor, limit).next) <==> x in Listing(checks, cursor)[limit..]
  {
    ListingDescends(checks, cursor);
    ListingMember(checks, cursor, x);
    ListingMember(checks, PageOf(checks, cursor, limit).next, x);
    CursorsAdvance(checks, cursor, limit, x);
    CutMember(Listing(checks, cursor), limit, x);
  }

  lemma RestDescends(rows: seq<Check>, n: nat)
    requires Descending(rows) && n <= |rows|
    ensures Descending(rows[n..])
  {
  }

  lemma CutJoins(rows: seq<Check>, n: nat)
    requires 0 < n <= |rows|
    ensures rows == rows[..n] + rows[n..] && |rows[n..]| < |rows|
  {
  }

  lemma ListingShrinks(checks: seq<Check>, cursor: Option<Cursor>, limit: nat)
    requires limit > 0 && IdsAscend(checks) && PageOf(checks, cursor, limit).next.Some?
    ensures Listing(checks, PageOf(checks, cursor, limit).next) == Listing(checks, cursor)[limit..]
  {
    var rows, rest := Listing(checks, cursor), Listing(checks, PageOf(checks, cursor, limit).next);
    ListingDescends(checks, cursor);
    ListingDescends(checks, PageOf(checks, cursor, limit).next);
    RestDescends(rows, limit);
    forall x
      ensures x in rest <==> x in rows[limit..]
    {
      RestMember(checks, cursor, limit, x);
    }
    DescendingUnique(rest, rows[limit..]);
  }

  /** The rows after the cursor of a full page are the rest of the listing the page was cut from. */
  lemma RestAfterPage(checks: seq<Check>, cursor: Option<Cursor>, limit: nat)
    requires limit > 0 && IdsAscend(checks) && PageOf(checks, cursor, limit).next.Some?
    ensures var page := PageOf(checks, cursor, limit);
      Listing(checks, cursor) == page.rows + Listing(checks, page.next)
    ensures |Keep(checks, After(PageOf(checks, cursor, limit).next))| < |Keep(checks, After(cursor))|
  {
    ListingShrinks(checks, cursor, limit);
    CutJoins(Listing(checks, cursor), limit);
    ListingDescends(checks, cursor);
    ListingDescends(checks, PageOf(checks, cursor, limit).next);
  }

  /** Every request asks for at least one row, and each may ask for another number. */
  ghost predicate Positive(limits: nat -> nat) {
    forall i: nat :: limits(i) > 0
  }

  /** All rows returned by following `nextBefore` from the i-th request on until there is none. */
  ghost function Follow(checks: seq<Check>, cursor: Option<Cursor>, limits: nat -> nat, i: nat): seq<Check>
    requires Positive(limits) && IdsAscend(checks)
    decreases |Keep(checks, After(cursor))|
  {
    var page := PageOf(checks, cursor, limits(i));
    if page.next == None then page.rows
    else
      RestAfterPage(checks, cursor, limits(i));
      page.rows + Follow(checks, page.next, limits, i + 1)
  }

  lemma {:induction false} FollowIsTheRest(checks: seq<Check>, cursor: Option<Cursor>, limits: nat -> nat, i: nat)
    requires Positive(limits) && IdsAscend(checks)
    ensures Follow(checks, cursor, limits, i) == Listing(checks, cursor)
    decreases |Keep(checks, After(cursor))|
  {
    var page := PageOf(checks, cursor, limits(i));
    if page.next.Some? {
      RestAfterPage(checks, cursor, limits(i));
      FollowIsTheRest(checks, page.next, limits, i + 1);
    }
  }

  /** Over an unchanged table, following the cursors ends and lists the whole log, newest first, each row once. */
  lemma UnchangedTableListedOnce(checks: seq<Check>, limits: nat -> nat)
    requires Positive(limits) && IdsAscend(checks)
    ensures var listed := Follow(checks, None, limits, 0);
      && listed == Newest(checks)
      && |listed| == |checks|
      && (forall i, j :: 0 <= i < j < |listed| ==>
            || listed[i].checkedAt > listed[j].checkedAt
            || (listed[i].checkedAt == listed[j].checkedAt && listed[i].id > listed[j].id))
      && forall x :: x in listed <==> x in checks
  {
    FollowIsTheRest(checks, None, limits, 0);
    KeepAll(checks, After(None));
    NewestIsSorted(checks);
  }

  // ----- Pages read while the table changes -----

  /** One request of a walk: the table it is answered from, its cursor and its limit. */
  datatype Request = Request(table: seq<Check>, cursor: Option<Cursor>, limit: nat)

  function Answer(r: Request): Page
    requires r.limit > 0
  {
    PageOf(r.table, r.cursor, r.limit)
  }

  /** A complete walk: each request continues the page before it, and only the last page has nowhere to continue. */
  ghost predicate Walk(requests: seq<Request>) {
    && requests != []
    && requests[0].cursor == None
    && (forall i :: 0 <= i < |requests| ==> requests[i].limit > 0 && IdsAscend(requests[i].table))
    && (forall i, j :: 0 <= i && j == i + 1 < |requests| ==>
                         requests[j].cursor.Some? && Answer(requests[i]).next == requests[j].cursor)
    && Answer(requests[|requests| - 1]).next == None
  }

  /** The i-th page of the walk returns the row. */
  ghost predicate Shows(requests: seq<Request>, i: int, x: Check) {
    0 <= i < |requests| && requests[i].limit > 0 && x in Answer(requests[i]).rows
  }

  lemma {:induction false} CursorsDescend(requests: seq<Request>, i: nat, j: nat, x: Check)
    requires Walk(requests) && i <= j < |requests|
    requires After(requests[j].cursor)(x)
    ensures After(requests[i].cursor)(x)
    decreases j - i
  {
    if i < j {
      var r := requests[j - 1];
      CursorsAdvance(r.table, r.cursor, r.limit, x);
      CursorsDescend(requests, i, j - 1, x);
    }
  }

  lemma {:induction false} FoundFrom(requests: seq<Request>, i: nat, x: Check)
    requires Walk(requests) && i < |requests|
    requires After(requests[i].cursor)(x) && forall k :: 0 <= k < |requests| ==> x in requests[k].table
    ensures exists k :: Shows(requests, k, x)
    decreases |requests| - i
  {
    var r := requests[i];
    PageMember(r.table, r.cursor, r.limit, x);
    if i < |requests| - 1 && After(requests[i + 1].cursor)(x) {
      FoundFrom(requests, i + 1, x);
    } else {
      assert x in r.table;
      assert Shows(requests, i, x);
    }
  }

  /**
   * With any inserts and deletes between the pages, and any page sizes, a row that stays is returned on
   * exactly one page, once.
   */
  lemma StayingRowListedOnce(requests: seq<Request>, x: Check)
    requires Walk(requests)
    requires forall k :: 0 <= k < |requests| ==> x in requests[k].table
    ensures exists k :: Shows(requests, k, x)
    ensures forall i, j :: Shows(requests, i, x) && Shows(requests, j, x) ==> i == j
    ensures forall i :: 0 <= i < |requests| ==> Descending(Answer(requests[i]).rows)
  {
    FoundFrom(requests, 0, x);
    forall i, j | Shows(requests, i, x) && Shows(requests, j, x)
      ensures i == j
    {
      OnOnePage(requests, i, j, x);
      OnOnePage(requests, j, i, x);
    }
    forall i | 0 <= i < |requests|
      ensures Descending(Answer(requests[i]).rows)
    {
      PageMember(requests[i].table, requests[i].cursor, requests[i].limit, x);
    }
  }

  lemma OnOnePage(requests: seq<Request>, i: nat, j: nat, x: Check)
    requires Walk(requests) && Shows(requests, i, x) && Shows(requests, j, x)
    ensures i >= j
  {
    PageMember(requests[i].table, requests[i].cursor, requests[i].limit, x);
    PageMember(requests[j].table, requests[j].cursor, requests[j].limit, x);
    if i < j {
      CursorsDescend(requests, i + 1, j, x);
    }
  }
}
