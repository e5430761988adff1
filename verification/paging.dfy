/** What the helpers achieve when a caller pages through a table with them.

The data-access layer is not modelled: a query is given as the table's rows
already in the page order, and a fragment's effect on them is `Select`, the
rows its `Matches` lets through, in order. With that, a cursor taken from the
last row of the rows seen so far selects exactly the rows not yet seen, so
the no-offset scheme returns the same pages as skipping a row count would.
 */
module Paging {
  import opened NoOffset

  /** The two page orders the module serves: descending id with `lt`
      fragments, ascending id with `gt` fragments. */
  datatype Order = Descending | Ascending

  /** The fragment the caller builds for the given order. */
  function CursorCondition(order: Order, lastId: int): Condition
  {
    match order
    case Descending => LtLastIdCondition(lastId)
    case Ascending => GtLastIdCondition(lastId)
  }

  /** Rows in strictly decreasing (resp. increasing) id order; ids are unique. */
  predicate SortedBy<P>(order: Order, rows: seq<Row<P>>)
  {
    match order
    case Descending => forall i, j :: 0 <= i < j < |rows| ==> rows[i].id > rows[j].id
    case Ascending => forall i, j :: 0 <= i < j < |rows| ==> rows[i].id < rows[j].id
  }

  /** Ids the table hands out start at one, so no row id collides with the
      "no cursor" values. */
  predicate PositiveIds<P>(rows: seq<Row<P>>)
  {
    forall i :: 0 <= i < |rows| ==> rows[i].id > 0
  }

  /** The rows a fragment lets through, in their original order. */
  function Select<P>(rows: seq<Row<P>>, cond: Condition): (r: seq<Row<P>>)
    ensures |r| <= |rows|
    ensures forall i :: 0 <= i < |r| ==> Matches(cond, r[i].id)
  {
    if |rows| == 0 then []
    else if Matches(cond, rows[0].id) then [rows[0]] + Select(rows[1..], cond)
    else Select(rows[1..], cond)
  }

  /** A row is selected exactly when it is in the table and the fragment
      matches its id. */
  lemma {:induction false} SelectMembership<P>(rows: seq<Row<P>>, cond: Condition, x: Row<P>)
    ensures x in Select(rows, cond) <==> x in rows && Matches(cond, x.id)
    decreases |rows|
  {
    if |rows| > 0 {
      SelectMembership(rows[1..], cond, x);
      assert rows == [rows[0]] + rows[1..];
    }
  }

  /** At most `n` leading rows: a page of size `n`. */
  function Take<P>(rows: seq<Row<P>>, n: nat): (page: seq<Row<P>>)
    ensures |page| == if |rows| <= n then |rows| else n
    ensures page == rows[..|page|]
  {
    if |rows| <= n then rows else rows[..n]
  }

  /** The query a caller sends for one page: the rows the cursor fragment
      lets through, at most `pageSize` of them. */
  function FetchPage<P>(order: Order, rows: seq<Row<P>>, lastId: int, pageSize: nat): seq<Row<P>>
  {
    Take(Select(rows, CursorCondition(order, lastId)), pageSize)
  }

  /** All pages laid end to end. */
  function Flatten<P>(pages: seq<seq<Row<P>>>): seq<Row<P>>
  {
    if |pages| == 0 then [] else pages[0] + Flatten(pages[1..])
  }

  /** Selection works row by row: it distributes over concatenation, so it
      keeps the rows in their original order. */
  lemma {:induction false} SelectAppend<P>(a: seq<Row<P>>, b: seq<Row<P>>, cond: Condition)
    ensures Select(a + b, cond) == Select(a, cond) + Select(b, cond)
    decreases |a|
  {
    if |a| == 0 {
      assert a + b == b;
    } else {
      assert (a + b)[1..] == a[1..] + b;
      SelectAppend(a[1..], b, cond);
    }
  }

  /** A fragment every row matches changes nothing. */
  lemma {:induction false} SelectAllMatch<P>(rows: seq<Row<P>>, cond: Condition)
    requires forall i :: 0 <= i < |rows| ==> Matches(cond, rows[i].id)
    ensures Select(rows, cond) == rows
    decreases |rows|
  {
    if |rows| > 0 {
      SelectAllMatch(rows[1..], cond);
    }
  }

  /** A fragment no row matches selects nothing. */
  lemma {:induction false} SelectNoneMatch<P>(rows: seq<Row<P>>, cond: Condition)
    requires forall i :: 0 <= i < |rows| ==> !Matches(cond, rows[i].id)
    ensures Select(rows, cond) == []
    decreases |rows|
  {
    if |rows| > 0 {
      SelectNoneMatch(rows[1..], cond);
    }
  }

  /** The first page, requested with the default cursor, is the whole table. */
  lemma {:induction false} FirstPageIsUnfiltered<P>(order: Order, rows: seq<Row<P>>)
    ensures Select(rows, CursorCondition(order, DefaultLastId)) == rows
  {
    SelectAllMatch(rows, CursorCondition(order, DefaultLastId));
  }

  /** In a sorted table, the fragment built from a positive id at position
      `k - 1` rejects every row up to that position and accepts every row
      after it. */
  lemma {:induction false} CursorSplitsSortedRows<P>(order: Order, rows: seq<Row<P>>, k: nat)
    requires SortedBy(order, rows)
    requires 0 < k <= |rows| && rows[k - 1].id > 0
    ensures forall i :: 0 <= i < k ==> !Matches(CursorCondition(order, rows[k - 1].id), rows[i].id)
    ensures forall i :: k <= i < |rows| ==> Matches(CursorCondition(order, rows[k - 1].id), rows[i].id)
  {
  }

  /** A fragment that rejects the first `k` rows and accepts the rest selects
      exactly the rows from position `k` on. */
  lemma {:induction false} SelectDropsRejectedPrefix<P>(rows: seq<Row<P>>, k: nat, cond: Condition)
    requires k <= |rows|
    requires forall i :: 0 <= i < k ==> !Matches(cond, rows[i].id)
    requires forall i :: k <= i < |rows| ==> Matches(cond, rows[i].id)
    ensures Select(rows, cond) == rows[k..]
  {
    var seen, rest := rows[..k], rows[k..];
    assert rows == seen + rest;
    SelectAppend(seen, rest, cond);
    SelectNoneMatch(seen, cond);
    SelectAllMatch(rest, cond);
  }

  /** Keyset equals offset: after the first `k` rows have been seen, the
      fragment built from the cursor of those rows selects exactly the rows
      from position `k` on. Only the cursor row's id needs to be positive;
      `NonPositiveLastIdRestarts` covers the other case. */
  lemma {:induction false} KeysetSkipsSeenRows<P>(order: Order, rows: seq<Row<P>>, k: nat)
    requires SortedBy(order, rows)
    requires k <= |rows|
    requires k == 0 || rows[k - 1].id > 0
    ensures Select(rows, CursorCondition(order, FindLastIdOrDefault(rows[..k]))) == rows[k..]
  {
    if k == 0 {
      FirstPageIsUnfiltered(order, rows);
    } else {
      assert FindLastIdOrDefault(rows[..k]) == rows[k - 1].id;
      CursorSplitsSortedRows(order, rows, k);
      SelectDropsRejectedPrefix(rows, k, CursorCondition(order, rows[k - 1].id));
    }
  }

  /** Once the last page has been served, the page after it is empty, and
      the cursor read off that empty page is the first-page sentinel, so
      following it starts over from the whole table. */
  lemma {:induction false} CursorPastLastPageRestarts<P>(order: Order, rows: seq<Row<P>>)
    requires SortedBy(order, rows) && PositiveIds(rows)
    ensures Select(rows, CursorCondition(order, FindLastIdOrDefault(rows))) == []
    ensures FindLastIdOrDefault(Select(rows, CursorCondition(order, FindLastIdOrDefault(rows)))) == DefaultLastId
    ensures Select(rows, CursorCondition(order, FindLastIdOrDefault(Select(rows, CursorCondition(order, FindLastIdOrDefault(rows)))))) == rows
  {
    KeysetSkipsSeenRows(order, rows, |rows|);
    assert rows[..|rows|] == rows;
    FirstPageIsUnfiltered(order, rows);
  }

  /** A non-positive id on the last row of a page turns the next request
      into a first-page request, which is why the scheme needs positive ids. */
  lemma {:induction false} NonPositiveLastIdRestarts<P>(order: Order, rows: seq<Row<P>>, page: seq<Row<P>>)
    requires |page| > 0 && page[|page| - 1].id <= 0
    ensures Select(rows, CursorCondition(order, FindLastIdOrDefault(page))) == rows
  {
    SelectAllMatch(rows, CursorCondition(order, FindLastIdOrDefault(page)));
  }

  /** Serving one more page extends the rows served by exactly that page. */
  lemma {:induction false} FlattenAppend<P>(pages: seq<seq<Row<P>>>, page: seq<Row<P>>)
    ensures Flatten(pages + [page]) == Flatten(pages) + page
    decreases |pages|
  {
    if |pages| == 0 {
      assert pages + [page] == [page];
    } else {
      assert (pages + [page])[1..] == pages[1..] + [page];
      FlattenAppend(pages[1..], page);
    }
  }

  /** What holds between two rounds of the caller's loop: the pages served
      so far are the first `seen` rows, cut into full pages except possibly
      at the very end, `lastId` is their cursor and `page` is the next page. */
  ghost predicate WalkState<P>(rows: seq<Row<P>>, pageSize: nat, pages: seq<seq<Row<P>>>, seen: nat, lastId: int, page: seq<Row<P>>)
  {
    && seen <= |rows|
    && Flatten(pages) == rows[..seen]
    && lastId == FindLastIdOrDefault(rows[..seen])
    && page == Take(rows[seen..], pageSize)
    && (forall i :: 0 <= i < |pages| ==> 0 < |pages[i]| <= pageSize)
    && (forall i :: 0 <= i < |pages| - 1 ==> |pages[i]| == pageSize)
    && (|pages| > 0 && |pages[|pages| - 1]| < pageSize ==> seen == |rows|)
  }

  /** Serving the page at position `seen` extends the served prefix by that
      page, and a short page is the last one. */
  lemma {:induction false} PageExtendsPrefix<P>(rows: seq<Row<P>>, pageSize: nat, seen: nat, page: seq<Row<P>>)
    requires seen <= |rows| && page == Take(rows[seen..], pageSize)
    ensures seen + |page| <= |rows|
    ensures rows[..seen] + page == rows[..seen + |page|]
    ensures |page| > 0 ==> FindLastIdOrDefault(page) == FindLastIdOrDefault(rows[..seen + |page|])
    ensures |page| < pageSize ==> seen + |page| == |rows|
  {
  }

  /** Appending a page that is neither empty nor over-full keeps the page
      size bounds, and all but the last page stay full when the previous
      last page was full. */
  lemma {:induction false} PageSizesExtend<P>(pageSize: nat, pages: seq<seq<Row<P>>>, page: seq<Row<P>>)
    requires forall i :: 0 <= i < |pages| ==> 0 < |pages[i]| <= pageSize
    requires forall i :: 0 <= i < |pages| - 1 ==> |pages[i]| == pageSize
    requires |pages| > 0 ==> |pages[|pages| - 1]| == pageSize
    requires 0 < |page| <= pageSize
    ensures forall i :: 0 <= i < |pages + [page]| ==> 0 < |(pages + [page])[i]| <= pageSize
    ensures forall i :: 0 <= i < |pages + [page]| - 1 ==> |(pages + [page])[i]| == pageSize
  {
  }

  /** One round of the caller's loop: serving the next page and querying
      with the cursor read off it keeps `WalkState`, one page further on. */
  lemma {:induction false} WalkStep<P>(order: Order, rows: seq<Row<P>>, pageSize: nat, pages: seq<seq<Row<P>>>, seen: nat, lastId: int, page: seq<Row<P>>)
    requires SortedBy(order, rows) && PositiveIds(rows) && pageSize > 0
    requires WalkState(rows, pageSize, pages, seen, lastId, page) && |page| > 0
    ensures seen + |page| <= |rows|
    ensures WalkState(rows, pageSize, pages + [page], seen + |page|, FindLastIdOrDefault(page),
                      FetchPage(order, rows, FindLastIdOrDefault(page), pageSize))
  {
    PageExtendsPrefix(rows, pageSize, seen, page);
    KeysetSkipsSeenRows(order, rows, seen + |page|);
    FlattenAppend(pages, page);
    PageSizesExtend(pageSize, pages, page);
  }

  /** The loop starts from the default cursor with nothing served yet. */
  lemma {:induction false} WalkStart<P>(order: Order, rows: seq<Row<P>>, pageSize: nat)
    ensures WalkState(rows, pageSize, [], 0, DefaultLastId, FetchPage(order, rows, DefaultLastId, pageSize))
  {
    FirstPageIsUnfiltered(order, rows);
    assert rows[..0] == [] && rows[0..] == rows;
  }

  /** When the next page comes back empty, every row has been served. */
  lemma {:induction false} WalkEnd<P>(rows: seq<Row<P>>, pageSize: nat, pages: seq<seq<Row<P>>>, seen: nat, lastId: int, page: seq<Row<P>>)
    requires pageSize > 0
    requires WalkState(rows, pageSize, pages, seen, lastId, page) && |page| == 0
    ensures Flatten(pages) == rows
    ensures forall i :: 0 <= i < |pages| ==> 0 < |pages[i]| <= pageSize
    ensures forall i :: 0 <= i < |pages| - 1 ==> |pages[i]| == pageSize
  {
  }

  /** A caller paging through the whole table: it starts from the default
      cursor, asks for at most `pageSize` rows matching the cursor fragment,
      and takes the next cursor from the page it got, until a page comes
      back empty. Every row is returned exactly once, in table order, and
      every page but the last is full. */
  method Walk<P>(order: Order, rows: seq<Row<P>>, pageSize: nat) returns (pages: seq<seq<Row<P>>>)
    requires SortedBy(order, rows) && PositiveIds(rows)
    requires pageSize > 0
    ensures |rows| > 0 <==> |pages| > 0
    ensures Flatten(pages) == rows
    ensures forall i :: 0 <= i < |pages| ==> 0 < |pages[i]| <= pageSize
    ensures forall i :: 0 <= i < |pages| - 1 ==> |pages[i]| == pageSize
  {
    var lastId := DefaultLastId;
    ghost var seen: nat := 0;
    pages := [];
    var page := FetchPage(order, rows, lastId, pageSize);
    WalkStart(order, rows, pageSize);
    while |page| > 0
      invariant WalkState(rows, pageSize, pages, seen, lastId, page)
      decreases |rows| - seen
    {
      WalkStep(order, rows, pageSize, pages, seen, lastId, page);
      pages, seen := pages + [page], seen + |page|;
      lastId := FindLastIdOrDefault(page);
      page := FetchPage(order, rows, lastId, pageSize);
    }
    WalkEnd(rows, pageSize, pages, seen, lastId, page);
  }
}
