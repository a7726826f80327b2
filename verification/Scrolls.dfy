/** Keyset scrolling: one request as the library serves it, and whole runs in which a client
    follows `next_cursor` while rows come and go between requests. */
module Scrolls {
  import opened Outcomes
  import opened Sequences
  import opened Ordering
  import opened Keysets

  datatype ScrollPage = ScrollPage(items: seq<Row>, hasMore: bool, nextCursor: Option<Row>, limit: nat)

  // --- One request ------------------------------------------------------------------------

  /** WHERE keeps the rows for which the condition is true, not unknown. */
  function Where(rows: seq<Row>, e: Sql): seq<Row> {
    if rows == [] then []
    else
      var last := rows[|rows| - 1];
      Where(rows[..|rows| - 1], e) + if Eval(e, last).True? then [last] else []
  }

  function Itself(row: Row): Row {
    row
  }

  function OrderBy(rows: seq<Row>, ascending: bool): seq<Row> {
    SortByKey(Itself, (a, b) => RowBefore(ascending, a, b), rows)
  }

  /** Rows that sort after the cursor; without a cursor, all of them. */
  ghost function After(table: set<Row>, cursor: Option<Row>, ascending: bool): set<Row> {
    set r | r in table && (cursor.Some? ==> RowBefore(ascending, cursor.value, r))
  }

  ghost predicate Increasing(rows: seq<Row>, ascending: bool) {
    forall i, j | 0 <= i < j < |rows| :: RowBefore(ascending, rows[i], rows[j])
  }

  /** The next `limit` rows after the cursor, whether there are more, and where they start. */
  ghost predicate IsPage(table: set<Row>, cursor: Option<Row>, limit: nat, ascending: bool, page: ScrollPage) {
    var rest := After(table, cursor, ascending);
    && Increasing(page.items, ascending)
    && Elements(page.items) <= rest
    && (forall x, r | x in page.items && r in rest && r !in page.items :: RowBefore(ascending, x, r))
    && |page.items| == (if |rest| > limit then limit else |rest|)
    && (page.hasMore <==> |rest| > limit)
    && page.nextCursor == (if page.hasMore && page.items != [] then Some(page.items[|page.items| - 1]) else None)
    && page.limit == limit
  }

  /** A table whose keyset is unique and ends in a tiebreaker that is never NULL. */
  ghost predicate Tidy(table: seq<Row>, levels: nat) {
    levels > 0 && NoDuplicates(table) && forall r: Row | r in table :: |r| == levels && r[levels - 1].Val?
  }

  predicate BadCursor(cursor: Row, levels: nat, ascending: bool) {
    |cursor| != levels || (ascending && forall i | 0 <= i < |cursor| :: cursor[i].Null?)
  }

  /** The row is one that a scroll resuming from the cursor gets to see. */
  predicate Resumes(cursor: Option<Row>, row: Row, ascending: bool) {
    cursor.None? ||
    (|cursor.value| == |row| > 0 && RowBefore(ascending, cursor.value, row) && !Dropped(cursor.value, row, ascending))
  }

  /** The rows of the table that a scroll resuming from the cursor gets to see, in order, as often
      as they are there. */
  ghost predicate IsListing(table: seq<Row>, cursor: Option<Row>, ascending: bool, rows: seq<Row>) {
    && (forall i, j | 0 <= i < j < |rows| :: !RowBefore(ascending, rows[j], rows[i]))
    && (forall row :: multiset(rows)[row] == if Resumes(cursor, row, ascending) then multiset(table)[row] else 0)
  }

  /** The page that starts this listing: a boundary without a tiebreaker cannot be handed out. */
  ghost predicate StartsListing(rows: seq<Row>, limit: nat, levels: nat, r: Result<ScrollPage, PageError>)
    requires limit > 0 && (levels > 0 ==> forall row | row in rows :: |row| == levels)
  {
    if |rows| > limit && levels > 0 && rows[limit - 1][levels - 1].Null? then r == Err(NullTiebreaker)
    else r == Ok(ScrollPage(if |rows| > limit then rows[..limit] else rows, |rows| > limit,
                            if |rows| > limit && levels > 0 then Some(rows[limit - 1]) else None, limit))
  }

  ghost predicate StartsSomeListing(table: seq<Row>, cursor: Option<Row>, ascending: bool, limit: nat, levels: nat,
                                    r: Result<ScrollPage, PageError>)
    requires limit > 0
  {
    exists rows: seq<Row> ::
      && IsListing(table, cursor, ascending, rows)
      && (levels > 0 ==> forall row | row in rows :: |row| == levels)
      && StartsListing(rows, limit, levels, r)
  }

  /** `_paginate_scroll_query`: asks for one row too many to learn whether there are more. */
  method PaginateScrollQuery(rows: seq<Row>, limit: int, levels: nat) returns (r: Result<ScrollPage, PageError>)
    requires levels > 0 ==> forall row | row in rows :: |row| == levels
    ensures StartsListing(rows, if limit < 1 then 20 else limit, levels, r)
    ensures r.Ok? ==> r.value.limit == if limit < 1 then 20 else limit
    ensures r.Ok? ==> |r.value.items| <= r.value.limit && (r.value.hasMore <==> |rows| > r.value.limit)
  {
    var lim := limit;
    if lim < 1 {
      lim := 20;
    }
    var data := if |rows| > lim + 1 then rows[..lim + 1] else rows;
    var hasMore := |data| > lim;
    if hasMore {
      data := data[..lim];
    }
    assert |rows| > lim ==> data == rows[..lim];
    var nextCursor: Option<Row> := None;
    if hasMore && levels > 0 {
      var boundary := data[|data| - 1];
      assert boundary in rows;
      if boundary[|boundary| - 1].Null? {
        return Err(NullTiebreaker);
      }
      nextCursor := Some(boundary);
    }
    r := Ok(ScrollPage(data, hasMore, nextCursor, lim));
  }

  /** `paginate_scroll`. `levels` is the length of the keyset, zero when there is none; without
      a keyset the table stands for the rows in the order the query yields them. */
  method PaginateScroll(table: seq<Row>, limit: int, levels: nat, orderBy: bool, cursor: Option<Row>, ascending: bool)
    returns (r: Result<ScrollPage, PageError>)
    requires levels > 0 ==> forall row | row in table :: |row| == levels
    ensures cursor.Some? && levels == 0 ==> r == Err(CursorNeedsKeyset)
    ensures levels > 0 && orderBy ==> r == Err(KeysetIsTheOrdering)
    ensures levels == 0 && cursor.None? ==>
      var n := if limit < 1 then 20 else limit;
      r == Ok(ScrollPage(if |table| > n then table[..n] else table, |table| > n, None, n))
    ensures levels > 0 && !orderBy && cursor.Some? && BadCursor(cursor.value, levels, ascending) ==> r == Err(InvalidCursor)
    ensures levels > 0 && !orderBy && (cursor.Some? ==> !BadCursor(cursor.value, levels, ascending)) ==>
      StartsSomeListing(table, cursor, ascending, if limit < 1 then 20 else limit, levels, r)
    ensures Tidy(table, levels) && !orderBy && (cursor.Some? ==> !BadCursor(cursor.value, levels, ascending)) ==>
      r.Ok? && IsPage(Elements(table), cursor, if limit < 1 then 20 else limit, ascending, r.value)
    ensures limit >= 1 && r.Ok? ==> r.value.limit == limit && |r.value.items| <= limit
    ensures limit < 1 && r.Ok? ==> r.value.limit == 20 && |r.value.items| <= 20
  {
    hide IsPage, Eval, RowBefore, SortByKey, StartsSomeListing, NoDuplicates, OrderBy;
    if cursor.Some? && levels == 0 {
      return Err(CursorNeedsKeyset);
    }
    if levels > 0 && orderBy {
      return Err(KeysetIsTheOrdering);
    }
    var rows := table;
    if levels > 0 && cursor.Some? {
      if |cursor.value| != levels {
        return Err(InvalidCursor);
      }
      NoConditionIffAllNull(cursor.value, ascending, levels);
      var condition :- KeysetPredicate(cursor.value, ascending);
      rows := Where(table, condition);
    }
    ghost var kept := rows;
    if levels > 0 {
      SortedRows(table, levels, cursor, ascending, kept);
      rows := OrderBy(rows, ascending);
    }
    r := PaginateScrollQuery(rows, limit, levels);
    if levels > 0 {
      ScrollMeaning(table, levels, cursor, ascending, kept, if limit < 1 then 20 else limit, r);
    }
  }

  /** What WHERE lets through. */
  ghost predicate IsWhere(table: seq<Row>, levels: nat, cursor: Option<Row>, ascending: bool, rows: seq<Row>) {
    match cursor
    case None => rows == table
    case Some(c) => |c| == levels && rows == Where(table, Or(Disjuncts(c, ascending, levels)))
  }

  lemma SortedRows(table: seq<Row>, levels: nat, cursor: Option<Row>, ascending: bool, kept: seq<Row>)
    requires IsWhere(table, levels, cursor, ascending, kept) && forall row | row in table :: |row| == levels
    ensures forall row | row in OrderBy(kept, ascending) :: |row| == levels
  {
    hide Eval, RowBefore;
    OrderByMeaning(kept, ascending);
    if cursor.Some? {
      WhereMeaning(table, Or(Disjuncts(cursor.value, ascending, levels)));
    }
  }

  lemma ScrollMeaning(table: seq<Row>, levels: nat, cursor: Option<Row>, ascending: bool, kept: seq<Row>, limit: nat,
                      r: Result<ScrollPage, PageError>)
    requires levels > 0 && limit > 0 && forall row | row in table :: |row| == levels
    requires IsWhere(table, levels, cursor, ascending, kept) && forall row | row in OrderBy(kept, ascending) :: |row| == levels
    requires StartsListing(OrderBy(kept, ascending), limit, levels, r)
    ensures StartsSomeListing(table, cursor, ascending, limit, levels, r)
    ensures Tidy(table, levels) ==> r.Ok? && IsPage(Elements(table), cursor, limit, ascending, r.value)
  {
    hide Eval, RowBefore, SortByKey, IsPage, IsListing, After, NoDuplicates, OrderBy;
    var rows := OrderBy(kept, ascending);
    OrderByMeaning(kept, ascending);
    ListingIsSorted(table, levels, cursor, ascending, kept);
    if Tidy(table, levels) {
      NoCursor(Elements(table), ascending);
      if cursor.Some? {
        var condition := Or(Disjuncts(cursor.value, ascending, levels));
        WhereMeaning(table, condition);
        WhereIsAfter(table, levels, cursor, ascending, condition, kept);
      }
      assert |rows| > limit ==> rows[limit - 1] in rows && rows[limit - 1] in Elements(kept);
      PageOfSorted(table, levels, cursor, ascending, kept, rows, limit);
    }
  }

  /** Sorting what the condition lets through gives the listing. */
  lemma ListingIsSorted(table: seq<Row>, levels: nat, cursor: Option<Row>, ascending: bool, rows: seq<Row>)
    requires levels > 0 && (forall row | row in table :: |row| == levels)
    requires IsWhere(table, levels, cursor, ascending, rows)
    ensures IsListing(table, cursor, ascending, OrderBy(rows, ascending))
  {
    hide Eval, RowBefore, Dropped;
    var sorted := OrderBy(rows, ascending);
    var less := (a, b) => RowBefore(ascending, a, b);
    BeforeIsOrder(ascending);
    SortMeaning(Itself, less, rows);
    forall i, j | 0 <= i < j < |sorted| ensures !RowBefore(ascending, sorted[j], sorted[i]) {
      assert !less(Itself(sorted[j]), Itself(sorted[i]));
    }
    forall row ensures multiset(sorted)[row] == if Resumes(cursor, row, ascending) then multiset(table)[row] else 0 {
      if cursor.Some? {
        WhereCounts(table, Or(Disjuncts(cursor.value, ascending, levels)), row);
        if row in table {
          PredicateSelects(cursor.value, row, ascending);
        }
      }
    }
  }

  lemma {:induction false} WhereCounts(rows: seq<Row>, e: Sql, row: Row)
    ensures multiset(Where(rows, e))[row] == if Eval(e, row).True? then multiset(rows)[row] else 0
  {
    hide Eval;
    if rows != [] {
      var front, last := rows[..|rows| - 1], rows[|rows| - 1];
      assert rows == front + [last];
      WhereCounts(front, e, row);
    }
  }

  lemma NoCursor(table: set<Row>, ascending: bool)
    ensures After(table, None, ascending) == table
  {}

  lemma {:induction false} WhereMeaning(rows: seq<Row>, e: Sql)
    ensures forall r :: r in Where(rows, e) <==> r in rows && Eval(e, r).True?
    ensures NoDuplicates(rows) ==> NoDuplicates(Where(rows, e))
  {
    hide Eval;
    if rows != [] {
      var front, last := rows[..|rows| - 1], rows[|rows| - 1];
      assert rows == front + [last];
      WhereMeaning(front, e);
      assert NoDuplicates(rows) ==> last !in front;
    }
  }

  /** What WHERE lets through is what sorts after the cursor. */
  lemma WhereIsAfter(table: seq<Row>, levels: nat, cursor: Option<Row>, ascending: bool, condition: Sql, rows: seq<Row>)
    requires cursor.Some? && |cursor.value| == levels
    requires condition == Or(Disjuncts(cursor.value, ascending, levels))
    requires forall r :: r in rows <==> r in table && Eval(condition, r).True?
    ensures Tidy(table, levels) ==> Elements(rows) == After(Elements(table), cursor, ascending)
  {
    hide Eval, RowBefore;
    if Tidy(table, levels) {
      forall r | r in table ensures Eval(condition, r).True? <==> RowBefore(ascending, cursor.value, r) {
        PredicateIsOrder(cursor.value, r, ascending);
      }
    }
  }

  lemma OrderByMeaning(rows: seq<Row>, ascending: bool)
    ensures forall r :: r in OrderBy(rows, ascending) <==> r in rows
    ensures NoDuplicates(rows) ==>
      && NoDuplicates(OrderBy(rows, ascending))
      && Increasing(OrderBy(rows, ascending), ascending)
  {
    hide RowBefore;
    var less := (a, b) => RowBefore(ascending, a, b);
    BeforeIsOrder(ascending);
    SortKeepsElements(Itself, less, rows);
    var s := OrderBy(rows, ascending);
    if NoDuplicates(rows) {
      forall i, j | 0 <= i < j < |s| ensures RowBefore(ascending, s[i], s[j]) {
        assert !less(Itself(s[j]), Itself(s[i]));
      }
    }
  }

  lemma PageOfSorted(table: seq<Row>, levels: nat, cursor: Option<Row>, ascending: bool,
                     kept: seq<Row>, rows: seq<Row>, limit: nat)
    requires Tidy(table, levels) && limit > 0 && NoDuplicates(kept) && NoDuplicates(rows) && Increasing(rows, ascending)
    requires Elements(kept) == After(Elements(table), cursor, ascending) && Elements(rows) == Elements(kept)
    ensures IsPage(Elements(table), cursor, limit, ascending,
                   ScrollPage(if |rows| > limit then rows[..limit] else rows, |rows| > limit,
                              if |rows| > limit then Some(rows[limit - 1]) else None, limit))
  {
    hide RowBefore;
    var items := if |rows| > limit then rows[..limit] else rows;
    NoDuplicatesSize(rows);
    assert items == rows[..|items|];
    forall x, r | x in items && r in Elements(rows) && r !in items ensures RowBefore(ascending, x, r) {
      var i :| 0 <= i < |items| && items[i] == x;
      var j :| 0 <= j < |rows| && rows[j] == r;
      assert j >= |items|;
    }
  }

  /** The cursor a page hands out is accepted by the next request. */
  lemma NextCursorIsAccepted(table: seq<Row>, levels: nat, cursor: Option<Row>, limit: nat, ascending: bool,
                             page: ScrollPage)
    requires Tidy(table, levels) && IsPage(Elements(table), cursor, limit, ascending, page) && page.nextCursor.Some?
    ensures !BadCursor(page.nextCursor.value, levels, ascending)
  {
    hide RowBefore;
    var last := page.items[|page.items| - 1];
    assert last in Elements(page.items);
  }

  // --- Whole runs -----------------------------------------------------------------------------

  /** One request of a run: the table as it was then, and the page it returned. */
  datatype Request = Request(table: set<Row>, page: ScrollPage)

  /** The client starts from `cursor` and follows `next_cursor` until `has_more` is false; the
      table may be any other one at every request. */
  ghost predicate IsRun(run: seq<Request>, cursor: Option<Row>, limit: nat, ascending: bool) {
    && run != []
    && IsPage(run[0].table, cursor, limit, ascending, run[0].page)
    && if run[0].page.hasMore then IsRun(run[1..], run[0].page.nextCursor, limit, ascending) else |run| == 1
  }

  function Collected(run: seq<Request>): seq<Row> {
    if run == [] then [] else run[0].page.items + Collected(run[1..])
  }

  /** Everything collected sorts after the cursor the run starts from. */
  lemma {:induction false} CollectedIsAfter(run: seq<Request>, cursor: Option<Row>, limit: nat, ascending: bool)
    requires IsRun(run, cursor, limit, ascending) && limit > 0
    ensures forall r | r in Collected(run) :: cursor.Some? ==> RowBefore(ascending, cursor.value, r)
    decreases |run|
  {
    hide RowBefore;
    BeforeIsOrder(ascending);
    var page := run[0].page;
    assert Elements(page.items) <= After(run[0].table, cursor, ascending);
    assert forall r | r in page.items :: r in Elements(page.items);
    if page.hasMore {
      CollectedIsAfter(run[1..], page.nextCursor, limit, ascending);
      var less := (a, b) => RowBefore(ascending, a, b);
      var last := page.items[|page.items| - 1];
      assert last in page.items;
      forall r | r in Collected(run[1..]) && cursor.Some? ensures RowBefore(ascending, cursor.value, r) {
        assert less(cursor.value, last) && less(last, r);
      }
    }
  }

  /** Whatever happens to the table between requests, the rows come out in strictly increasing
      order of their keys, so no row comes out twice. */
  lemma {:induction false} CollectedIncreases(run: seq<Request>, cursor: Option<Row>, limit: nat, ascending: bool)
    requires IsRun(run, cursor, limit, ascending) && limit > 0
    ensures Increasing(Collected(run), ascending)
    decreases |run|
  {
    hide RowBefore;
    var items := run[0].page.items;
    if run[0].page.hasMore {
      var rest := Collected(run[1..]);
      CollectedIncreases(run[1..], run[0].page.nextCursor, limit, ascending);
      CollectedIsAfter(run[1..], run[0].page.nextCursor, limit, ascending);
      IncreasingJoin(items, rest, ascending);
    } else {
      assert run[1..] == [];
      assert items + [] == items;
    }
  }

  lemma IncreasingJoin(items: seq<Row>, rest: seq<Row>, ascending: bool)
    requires items != [] && Increasing(items, ascending) && Increasing(rest, ascending)
    requires forall r | r in rest :: RowBefore(ascending, items[|items| - 1], r)
    ensures Increasing(items + rest, ascending)
  {
    hide RowBefore;
    BeforeIsOrder(ascending);
    var less := (a, b) => RowBefore(ascending, a, b);
    var all := items + rest;
    var last := items[|items| - 1];
    forall i, j | 0 <= i < j < |all| ensures RowBefore(ascending, all[i], all[j]) {
      if i < |items| && j >= |items| {
        assert all[j] == rest[j - |items|] && all[j] in rest;
        assert less(last, all[j]);
        assert i == |items| - 1 || less(all[i], last);
      }
    }
  }

  lemma IncreasingHasNoDuplicates(rows: seq<Row>, ascending: bool)
    requires Increasing(rows, ascending)
    ensures NoDuplicates(rows)
  {
    hide RowBefore;
    BeforeIsOrder(ascending);
    var less := (a, b) => RowBefore(ascending, a, b);
    forall i, j | 0 <= i < j < |rows| ensures rows[i] != rows[j] {
      assert less(rows[i], rows[j]) && !less(rows[i], rows[i]);
    }
  }

  /** Nothing is invented: every row collected was in the table when its page was read. */
  lemma {:induction false} CollectedWasThere(run: seq<Request>, cursor: Option<Row>, limit: nat, ascending: bool, r: Row)
    requires IsRun(run, cursor, limit, ascending) && r in Collected(run)
    ensures exists k :: 0 <= k < |run| && r in run[k].table && r in run[k].page.items
    decreases |run|
  {
    hide RowBefore;
    if r in run[0].page.items {
      assert r in Elements(run[0].page.items);
      assert r in run[0].table;
    } else {
      CollectedWasThere(run[1..], run[0].page.nextCursor, limit, ascending, r);
      var k :| 0 <= k < |run[1..]| && r in run[1..][k].table && r in run[1..][k].page.items;
      assert run[k + 1] == run[1..][k];
    }
  }

  /** Nothing is skipped: a row that is in the table at every request, and sorts after the
      cursor the run starts from, is collected. */
  lemma {:induction false} PresentThroughoutIsCollected(run: seq<Request>, cursor: Option<Row>, limit: nat,
                                                        ascending: bool, r: Row)
    requires IsRun(run, cursor, limit, ascending) && limit > 0
    requires forall k | 0 <= k < |run| :: r in run[k].table
    requires cursor.Some? ==> RowBefore(ascending, cursor.value, r)
    ensures r in Collected(run)
    decreases |run|
  {
    hide RowBefore;
    var page := run[0].page;
    var rest := After(run[0].table, cursor, ascending);
    assert r in rest;
    if r !in page.items {
      if page.hasMore {
        var last := page.items[|page.items| - 1];
        assert last in page.items;
        assert forall k | 0 <= k < |run[1..]| :: run[1..][k] == run[k + 1];
        PresentThroughoutIsCollected(run[1..], page.nextCursor, limit, ascending, r);
      } else {
        LastPageIsAll(page.items, rest, r, ascending);
      }
    }
  }

  lemma LastPageIsAll(items: seq<Row>, rest: set<Row>, r: Row, ascending: bool)
    requires Increasing(items, ascending) && Elements(items) <= rest && |items| == |rest| && r in rest
    ensures r in items
  {
    IncreasingHasNoDuplicates(items, ascending);
    NoDuplicatesSize(items);
    SubsetSize(Elements(items), rest);
    assert r in Elements(items);
  }

  // --- A table that does not change ----------------------------------------------------------------

  /** `k` is n/limit rounded up, but at least one. */
  ghost predicate IsRequestCount(k: nat, n: nat, limit: nat) {
    if n == 0 then k == 1 else (k - 1) * limit < n <= k * limit
  }

  lemma RequestCountStep(k: nat, n: nat, limit: nat)
    requires n > limit > 0 && IsRequestCount(k, n - limit, limit)
    ensures IsRequestCount(k + 1, n, limit)
  {
    assert (k + 1) * limit == k * limit + limit;
    assert (k - 1) * limit == k * limit - limit;
  }

  /** What a full page leaves over for the next request. */
  lemma LeftOver(table: set<Row>, cursor: Option<Row>, limit: nat, ascending: bool, page: ScrollPage)
    requires IsPage(table, cursor, limit, ascending, page) && page.hasMore && limit > 0
    ensures page.nextCursor.Some?
    ensures After(table, page.nextCursor, ascending) == After(table, cursor, ascending) - Elements(page.items)
    ensures Elements(page.items) <= After(table, cursor, ascending)
    ensures |After(table, page.nextCursor, ascending)| == |After(table, cursor, ascending)| - limit
    ensures |After(table, cursor, ascending)| > limit
  {
    hide RowBefore;
    BeforeIsOrder(ascending);
    var less := (a, b) => RowBefore(ascending, a, b);
    var rest := After(table, cursor, ascending);
    var last := page.items[|page.items| - 1];
    assert last in page.items && last in Elements(page.items);
    forall r | r in table ensures RowBefore(ascending, last, r) <==> r in rest && r !in page.items {
      if r in page.items {
        var i :| 0 <= i < |page.items| && page.items[i] == r;
        assert i == |page.items| - 1 || less(r, last);
        assert !(less(last, r) && less(r, last)) && !less(last, last);
      } else if RowBefore(ascending, last, r) && cursor.Some? {
        assert less(cursor.value, last) && less(last, r);
      }
    }
    IncreasingHasNoDuplicates(page.items, ascending);
    NoDuplicatesSize(page.items);
    assert rest == (rest - Elements(page.items)) + Elements(page.items);
  }

  lemma LastPage(table: set<Row>, cursor: Option<Row>, limit: nat, ascending: bool, page: ScrollPage)
    requires IsPage(table, cursor, limit, ascending, page) && !page.hasMore && limit > 0
    ensures Elements(page.items) == After(table, cursor, ascending)
    ensures IsRequestCount(1, |After(table, cursor, ascending)|, limit)
  {
    hide RowBefore;
    forall r | r in After(table, cursor, ascending) ensures r in page.items {
      LastPageIsAll(page.items, After(table, cursor, ascending), r, ascending);
    }
  }

  /** On a table that does not change a scroll takes max(1, ceil(n/limit)) requests and collects
      exactly the table. */
  lemma {:induction false} FixedTable(run: seq<Request>, cursor: Option<Row>, limit: nat, ascending: bool, table: set<Row>)
    requires IsRun(run, cursor, limit, ascending) && limit > 0
    requires forall k | 0 <= k < |run| :: run[k].table == table
    ensures IsRequestCount(|run|, |After(table, cursor, ascending)|, limit)
    ensures Elements(Collected(run)) == After(table, cursor, ascending)
    decreases |run|
  {
    hide RowBefore, After, IsPage, IsRequestCount;
    var page := run[0].page;
    if page.hasMore {
      LeftOver(table, cursor, limit, ascending, page);
      assert forall k | 0 <= k < |run[1..]| :: run[1..][k] == run[k + 1];
      FixedTable(run[1..], page.nextCursor, limit, ascending, table);
      RequestCountStep(|run| - 1, |After(table, cursor, ascending)|, limit);
      assert Elements(Collected(run)) == Elements(page.items) + Elements(Collected(run[1..]));
    } else {
      assert run[1..] == [] && page.items + [] == page.items;
      LastPage(table, cursor, limit, ascending, page);
    }
  }

  /** The rows of the table that sort after the cursor, as they lie. */
  ghost function RowsAfter(table: seq<Row>, cursor: Option<Row>, ascending: bool): seq<Row> {
    if table == [] then []
    else
      var last := table[|table| - 1];
      RowsAfter(table[..|table| - 1], cursor, ascending) +
      if cursor.Some? ==> RowBefore(ascending, cursor.value, last) then [last] else []
  }

  lemma {:induction false} RowsAfterMeaning(table: seq<Row>, cursor: Option<Row>, ascending: bool)
    ensures forall r :: r in RowsAfter(table, cursor, ascending) <==>
      r in table && (cursor.Some? ==> RowBefore(ascending, cursor.value, r))
    ensures NoDuplicates(table) ==> NoDuplicates(RowsAfter(table, cursor, ascending))
  {
    hide RowBefore;
    if table != [] {
      var front, last := table[..|table| - 1], table[|table| - 1];
      assert table == front + [last];
      RowsAfterMeaning(front, cursor, ascending);
      assert NoDuplicates(table) ==> last !in front;
    }
  }

  /** Every request on a tidy table has its page. */
  lemma PageExists(table: seq<Row>, levels: nat, cursor: Option<Row>, limit: nat, ascending: bool) returns (page: ScrollPage)
    requires Tidy(table, levels) && limit > 0
    ensures IsPage(Elements(table), cursor, limit, ascending, page)
  {
    hide IsPage, RowBefore, OrderBy, NoDuplicates, RowsAfter;
    var kept := RowsAfter(table, cursor, ascending);
    RowsAfterMeaning(table, cursor, ascending);
    assert Elements(kept) == After(Elements(table), cursor, ascending);
    OrderByMeaning(kept, ascending);
    var rows := OrderBy(kept, ascending);
    assert Elements(rows) == Elements(kept);
    PageOfSorted(table, levels, cursor, ascending, kept, rows, limit);
    page := ScrollPage(if |rows| > limit then rows[..limit] else rows, |rows| > limit,
                       if |rows| > limit then Some(rows[limit - 1]) else None, limit);
  }

  /** On a table that does not change the scroll comes to its end: there is a run, and by
      `FixedTable` it has the number of requests stated there. */
  lemma {:induction false} RunExists(table: seq<Row>, levels: nat, cursor: Option<Row>, limit: nat, ascending: bool)
    returns (run: seq<Request>)
    requires Tidy(table, levels) && limit > 0
    ensures IsRun(run, cursor, limit, ascending) && forall k | 0 <= k < |run| :: run[k].table == Elements(table)
    ensures IsRequestCount(|run|, |After(Elements(table), cursor, ascending)|, limit)
    decreases |After(Elements(table), cursor, ascending)|
  {
    hide IsPage, After, Tidy, IsRequestCount;
    var page := PageExists(table, levels, cursor, limit, ascending);
    run := [Request(Elements(table), page)];
    if page.hasMore {
      LeftOver(Elements(table), cursor, limit, ascending, page);
      var rest := RunExists(table, levels, page.nextCursor, limit, ascending);
      run := run + rest;
      assert run[1..] == rest;
    }
    FixedTable(run, cursor, limit, ascending, Elements(table));
  }
}
