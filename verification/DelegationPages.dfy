/** Newest-first pages of delegation rows. A cursor names the last row of a page by value, so paging stays
    exact while rows come and go between two requests. */
module DelegationPages {
  import opened Wrappers

  /** The order keys of a row: creation time, then id. */
  datatype Row = Row(createdAt: int, id: int)

  datatype Page = Page(items: seq<Row>, nextCursor: Option<Row>)

  predicate Newer(a: Row, b: Row) {
    a.createdAt > b.createdAt || (a.createdAt == b.createdAt && a.id > b.id)
  }

  /** Strictly newest first; so no row repeats. */
  ghost predicate NewestFirst(list: seq<Row>) {
    forall i, j :: 0 <= i < j < |list| ==> Newer(list[i], list[j])
  }

  ghost predicate After(cursor: Option<Row>, row: Row) {
    cursor.Some? ==> Newer(cursor.value, row)
  }

  /** What a page of `rows` behind a cursor is: the newest rows older than the cursor, at most `limit`, and
      nothing is skipped that is newer than the last of them. */
  ghost predicate IsPage(rows: seq<Row>, cursor: Option<Row>, limit: nat, page: Page) {
    && NewestFirst(page.items) && |page.items| <= limit
    && (forall r :: r in page.items ==> r in rows && After(cursor, r))
    && (forall r :: r in rows && After(cursor, r) && r !in page.items ==>
          |page.items| == limit && (limit > 0 ==> Newer(page.items[limit - 1], r)))
    && page.nextCursor == if |page.items| == limit > 0 then Some(page.items[limit - 1]) else None
  }

  // ---- One page -----------------------------------------------------------------------------

  function Insert(sorted: seq<Row>, row: Row): seq<Row> {
    if sorted == [] || Newer(sorted[|sorted| - 1], row) then sorted + [row]
    else Insert(sorted[..|sorted| - 1], row) + [sorted[|sorted| - 1]]
  }

  function SortNewestFirst(rows: seq<Row>): seq<Row> {
    if rows == [] then [] else Insert(SortNewestFirst(rows[..|rows| - 1]), rows[|rows| - 1])
  }

  ghost predicate Distinct(rows: seq<Row>) {
    forall i, j :: 0 <= i < j < |rows| ==> rows[i] != rows[j]
  }

  lemma {:induction false} InsertMembers(sorted: seq<Row>, row: Row, r: Row)
    ensures r in Insert(sorted, row) <==> r in sorted || r == row
  {
    if sorted != [] && !Newer(sorted[|sorted| - 1], row) {
      InsertMembers(sorted[..|sorted| - 1], row, r);
      assert sorted == sorted[..|sorted| - 1] + [sorted[|sorted| - 1]];
    }
  }

  lemma {:induction false} InsertKeepsOrder(sorted: seq<Row>, row: Row)
    requires NewestFirst(sorted) && row !in sorted
    ensures NewestFirst(Insert(sorted, row))
  {
    if sorted != [] && !Newer(sorted[|sorted| - 1], row) {
      var rest, last := sorted[..|sorted| - 1], sorted[|sorted| - 1];
      assert sorted == rest + [last];
      InsertKeepsOrder(rest, row);
      var r := Insert(rest, row);
      forall i | 0 <= i < |r| ensures Newer(r[i], last) {
        InsertMembers(rest, row, r[i]);
        if r[i] != row {
          var k :| 0 <= k < |rest| && rest[k] == r[i];
          assert sorted[k] == rest[k];
        }
      }
    }
  }

  lemma {:induction false} SortOrders(rows: seq<Row>)
    requires Distinct(rows)
    ensures NewestFirst(SortNewestFirst(rows))
    ensures forall r :: r in SortNewestFirst(rows) <==> r in rows
  {
    if rows != [] {
      var rest, last := rows[..|rows| - 1], rows[|rows| - 1];
      assert rows == rest + [last];
      SortOrders(rest);
      assert forall k :: 0 <= k < |rest| ==> rest[k] == rows[k] && rows[k] != rows[|rest|];
      InsertKeepsOrder(SortNewestFirst(rest), last);
      forall r ensures r in SortNewestFirst(rows) <==> r in rows {
        InsertMembers(SortNewestFirst(rest), last, r);
      }
    }
  }

  method PageDelegationRows(rows: seq<Row>, cursor: Option<Row>, limit: nat) returns (page: Page)
    requires Distinct(rows)
    ensures IsPage(rows, cursor, limit, page)
    ensures InPageOrder(page.items) && HoldsNewest(rows, cursor, limit, page.items)
  {
    var sorted := SortNewestFirst(rows);
    SortOrders(rows);
    var from := 0;
    if cursor.Some? {
      while from < |sorted| && !Newer(cursor.value, sorted[from])
        invariant from <= |sorted|
        invariant forall k :: 0 <= k < from ==> !Newer(cursor.value, sorted[k])
      {
        from := from + 1;
      }
    }
    page := Cut(sorted, cursor, from, limit);
    CutIsPage(rows, sorted, cursor, from, limit);
    PageHoldsNewest(rows, cursor, limit, page);
  }

  /** Later creation first, and among rows created at the same time the larger id. */
  ghost predicate InPageOrder(items: seq<Row>) {
    forall i, j :: 0 <= i < j < |items| ==>
      items[i].createdAt > items[j].createdAt || (items[i].createdAt == items[j].createdAt && items[i].id > items[j].id)
  }

  /** The row was created before another one, or at the same time with a smaller id. */
  predicate IsOlder(row: Row, than: Row) {
    row.createdAt < than.createdAt || (row.createdAt == than.createdAt && row.id < than.id)
  }

  /** The items are rows older than the cursor, and a row older than the cursor is left out only if the page is full
      of newer ones. */
  ghost predicate HoldsNewest(rows: seq<Row>, cursor: Option<Row>, limit: nat, items: seq<Row>) {
    && |items| <= limit
    && (forall r :: r in items ==> r in rows && (cursor.Some? ==> IsOlder(r, cursor.value)))
    && (forall r :: r in rows && (cursor.Some? ==> IsOlder(r, cursor.value)) && r !in items ==>
          |items| == limit && forall k :: 0 <= k < |items| ==> IsOlder(r, items[k]))
  }

  lemma PageHoldsNewest(rows: seq<Row>, cursor: Option<Row>, limit: nat, page: Page)
    requires IsPage(rows, cursor, limit, page)
    ensures InPageOrder(page.items) && HoldsNewest(rows, cursor, limit, page.items)
  {
    var items := page.items;
    forall r, k | (r in rows && (cursor.Some? ==> IsOlder(r, cursor.value)) && r !in items && 0 <= k < |items|)
      ensures IsOlder(r, items[k])
    {
      assert After(cursor, r) && Newer(items[limit - 1], r);
      assert k == limit - 1 || Newer(items[k], items[limit - 1]);
    }
  }

  function Cut(sorted: seq<Row>, cursor: Option<Row>, from: nat, limit: nat): Page
    requires from <= |sorted|
  {
    var items := if from + limit <= |sorted| then sorted[from..from + limit] else sorted[from..];
    Page(items, if |items| == limit > 0 then Some(items[limit - 1]) else None)
  }

  lemma CutHolds(sorted: seq<Row>, cursor: Option<Row>, from: nat, limit: nat, r: Row)
    requires NewestFirst(sorted) && from <= |sorted| && (from < |sorted| ==> After(cursor, sorted[from]))
    requires r in Cut(sorted, cursor, from, limit).items
    ensures r in sorted && After(cursor, r)
  {
    var items := Cut(sorted, cursor, from, limit).items;
    var k :| 0 <= k < |items| && items[k] == r;
    assert sorted[from + k] == r && (k > 0 ==> Newer(sorted[from], r));
  }

  lemma CutSkipsNothing(sorted: seq<Row>, cursor: Option<Row>, from: nat, limit: nat, r: Row)
    requires NewestFirst(sorted) && from <= |sorted| && r in sorted && After(cursor, r)
    requires forall k :: 0 <= k < from ==> !After(cursor, sorted[k])
    ensures var items := Cut(sorted, cursor, from, limit).items;
      r in items || (|items| == limit && (limit > 0 ==> Newer(items[limit - 1], r)))
  {
    var items := Cut(sorted, cursor, from, limit).items;
    var k :| 0 <= k < |sorted| && sorted[k] == r;
    assert k < from + |items| ==> sorted[k] in items;
  }

  lemma CutIsPage(rows: seq<Row>, sorted: seq<Row>, cursor: Option<Row>, from: nat, limit: nat)
    requires NewestFirst(sorted) && from <= |sorted|
    requires forall r :: r in sorted <==> r in rows
    requires forall k :: 0 <= k < from ==> !After(cursor, sorted[k])
    requires from < |sorted| ==> After(cursor, sorted[from])
    ensures IsPage(rows, cursor, limit, Cut(sorted, cursor, from, limit))
  {
    var items := Cut(sorted, cursor, from, limit).items;
    forall r | r in items ensures r in rows && After(cursor, r) {
      CutHolds(sorted, cursor, from, limit, r);
    }
    forall r | r in rows && After(cursor, r) && r !in items
      ensures |items| == limit && (limit > 0 ==> Newer(items[limit - 1], r))
    {
      CutSkipsNothing(sorted, cursor, from, limit, r);
    }
  }

  // ---- A walk over changing rows ------------------------------------------------------------

  /** Page `i` was cut from `rows[i]`, the rows of that moment, behind the cursor of the page before. */
  ghost predicate IsWalk(rows: seq<seq<Row>>, limit: nat, pages: seq<Page>) {
    && |rows| == |pages| && limit > 0
    && (|pages| > 0 ==> IsPage(rows[0], None, limit, pages[0]))
    && forall i {:trigger pages[i]} :: 0 < i < |pages| ==>
      pages[i - 1].nextCursor.Some? && IsPage(rows[i], pages[i - 1].nextCursor, limit, pages[i])
  }

  /** Later pages hold only older rows, whatever was inserted or deleted meanwhile. */
  lemma {:induction false} PagesDescend(rows: seq<seq<Row>>, limit: nat, pages: seq<Page>, i: nat, j: nat, a: Row,
                                        b: Row)
    requires IsWalk(rows, limit, pages) && i < j < |pages| && a in pages[i].items && b in pages[j].items
    ensures Newer(a, b)
    decreases j - i
  {
    var last := pages[j - 1].nextCursor.value;
    assert IsPage(rows[j], pages[j - 1].nextCursor, limit, pages[j]);
    assert j - 1 == 0 || IsPage(rows[j - 1], pages[j - 2].nextCursor, limit, pages[j - 1]);
    assert last in pages[j - 1].items && Newer(last, b);
    if i < j - 1 {
      PagesDescend(rows, limit, pages, i, j - 1, a, last);
    } else {
      var k :| 0 <= k < |pages[i].items| && pages[i].items[k] == a;
      assert k == limit - 1 || Newer(a, last);
    }
  }

  /** So no row is delivered twice. */
  lemma NoRowTwice(rows: seq<seq<Row>>, limit: nat, pages: seq<Page>, i: nat, j: nat, r: Row)
    requires IsWalk(rows, limit, pages) && i < |pages| && j < |pages| && r in pages[i].items && r in pages[j].items
    ensures i == j
  {
    if i < j {
      PagesDescend(rows, limit, pages, i, j, r, r);
    } else if j < i {
      PagesDescend(rows, limit, pages, j, i, r, r);
    }
  }

  /** And a row that exists during the whole walk is delivered, also when rows around it come and go. */
  lemma NothingSkipped(rows: seq<seq<Row>>, limit: nat, pages: seq<Page>, r: Row)
    requires IsWalk(rows, limit, pages) && |pages| > 0 && pages[|pages| - 1].nextCursor.None?
    requires forall i :: 0 <= i < |rows| ==> r in rows[i]
    ensures exists i :: 0 <= i < |pages| && r in pages[i].items
  {
    var i := Found(rows, limit, pages, r, 0);
  }

  lemma {:induction false} Found(rows: seq<seq<Row>>, limit: nat, pages: seq<Page>, r: Row, from: nat) returns (i: nat)
    requires IsWalk(rows, limit, pages) && from < |pages| && pages[|pages| - 1].nextCursor.None?
    requires forall k :: 0 <= k < |rows| ==> r in rows[k]
    requires After(if from == 0 then None else pages[from - 1].nextCursor, r)
    ensures from <= i < |pages| && r in pages[i].items
    decreases |pages| - from
  {
    if r in pages[from].items {
      i := from;
    } else {
      assert IsPage(rows[from], if from == 0 then None else pages[from - 1].nextCursor, limit, pages[from]);
      i := Found(rows, limit, pages, r, from + 1);
    }
  }
}
