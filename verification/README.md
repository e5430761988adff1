# prisma-no-offset, modelled in Dafny

The library helps a web service page through a table by cursor ("no-offset"
pagination) instead of by row offset. The client sends the id of the last row
it has seen (`lastId`); the service turns it into a Prisma `where` fragment,
runs the query in id order, and reports the id of the last row of the page
as the cursor for the next request. A cursor of zero or less means the
client sent none, so the first page is served unfiltered.

The model has two modules:

- `NoOffset` (`no_offset.dfy`) is `src/index.ts` itself: the first-page
  sentinel `DefaultLastId`, the result row `Row<P>` (an `int` id plus a
  payload of any type for the other columns), the fragment datatype
  `Condition = Empty | Lt(bound) | Gt(bound)`, the predicate `Matches` that
  says which ids a fragment lets through (the empty fragment is ignored by
  Prisma, so it matches every id), and the three functions
  `LtLastIdCondition`, `GtLastIdCondition` and `FindLastIdOrDefault`.
- `Paging` (`paging.dfy`) states what the helpers achieve for a caller that
  uses them as their doc comments describe. A query is modelled as the
  table's rows already in page order, filtered by `Select` (the rows whose id
  the fragment `Matches`, in order) and cut to the page size by `Take`. On a
  table sorted by id, when the cursor row's id is positive, the fragment built from the cursor of
  the first `k` rows selects exactly the rows from position `k` on, so cursor
  paging returns the same pages as offset paging. The `Walk` method is a
  caller loop built from the documented usage (src/index.ts:9-14, 61-66):
  start from the default cursor, fetch a page, read the next cursor off it
  with `findLastIdOrDefault`. Stopping at an empty page is the modelled
  caller's choice, not something the library does or documents. The loop
  returns every row exactly once, in order, in full pages except possibly
  the last one.

Two consequences of the design are proved rather than assumed. The cursor
read off an empty page is the first-page sentinel, so a client that follows
the cursor past the last page starts over at the first page
(`CursorPastLastPageRestarts`). A row whose id is zero or negative would also
send the next request back to the first page (`NonPositiveLastIdRestarts`).
This is why `KeysetSkipsSeenRows` requires the cursor row's id to be positive,
and why `Walk`, which takes a cursor from every page, requires all ids to be
positive.

Both builders are Dafny functions. They are total on `int` and deterministic,
so equal cursors give equal fragments, and no call can modify its input.

The doc comment of `gtLastIdCondition` (src/index.ts:46) says that the
function looks for ids less than `lastId`. The code at src/index.ts:56 builds
a `gt` fragment, and the model follows the code.

## Model

| member | source | states |
|---|---|---|
| NoOffset.LtLastIdCondition | src/index.ts:33-38 | The fragment is empty exactly when the cursor is zero or negative. Otherwise it is an `lt` fragment bounded by the cursor itself, never a `gt` one. Under `Matches`, a row id passes iff the cursor is non-positive or the id is below the cursor. |
| NoOffset.GtLastIdCondition | src/index.ts:52-57 | The fragment is empty exactly when the cursor is zero or negative. Otherwise it is a `gt` fragment bounded by the cursor itself, never an `lt` one. Under `Matches`, a row id passes iff the cursor is non-positive or the id is above the cursor. |
| NoOffset.FindLastIdOrDefault | src/index.ts:68-76 | An empty page gives the first-page sentinel 0. A non-empty page gives the id of its row at index length-1. |
| NoOffset.NonPositiveCursorIsUnfiltered | src/index.ts:17-57 | The default cursor 0, and every negative cursor, make both builders return the empty fragment. Every row id matches that fragment. |
| NoOffset.BuildersPartitionIds | src/index.ts:33-57 | For a positive cursor, neither builder's fragment matches the cursor's own id. Every other id is matched by exactly one of the two fragments. |
| NoOffset.LastIdOfAppended | src/index.ts:73-75 | After appending a row to any page, the next cursor is that row's id. |
| NoOffset.LastIdDependsOnLastRowOnly | src/index.ts:73-75 | Two non-empty pages whose last rows carry the same id give the same cursor, whatever their other rows and columns hold. |
| Paging.Select | src/index.ts:24-25 | Applying a fragment to a sequence of rows returns no more rows than it was given, and every returned row matches the fragment. |
| Paging.SelectMembership | src/index.ts:24-25 | A row is selected iff it is in the table and the fragment matches its id. |
| Paging.FirstPageIsUnfiltered | src/index.ts:12-17 | In either order, the query built from the default cursor selects the whole table. |
| Paging.KeysetSkipsSeenRows | src/index.ts:33-76 | On a table sorted by id (descending for `lt`, ascending for `gt`): if k is 0 or the id at position k-1 is positive, then once the first k rows have been served, the fragment built from their cursor selects exactly the rows from position k on. |
| Paging.CursorPastLastPageRestarts | src/index.ts:68-72 | After the last rows have been served, the next page is empty and its cursor is the sentinel 0. A query with that cursor returns the whole table again. |
| Paging.NonPositiveLastIdRestarts | src/index.ts:33-36 | If the last row of a page has a non-positive id, the next query selects the whole table. |
| Paging.Walk | src/index.ts:9-66 | A caller loop built from the documented usage (default cursor for the first page at 9-14, next cursor from `findLastIdOrDefault` at 61-66) starts at the default cursor and moves the cursor with `findLastIdOrDefault`; stopping at an empty page is the modelled caller's choice. It returns at least one page exactly when the table is non-empty, and it serves every row of a sorted, positive-id table exactly once and in order. Every page holds between 1 and pageSize rows, and every page but the last is full. |

## Left out

- The `BigInt.prototype.toJSON` patch (src/index.ts:5-7) is a process-wide side effect on JSON serialisation. It has no pure behaviour to model.
- The query-parameter name `LAST_ID = "lastId"` (src/index.ts:16) is only a key for the web framework's request binding.
- The bigint/number distinction is not modelled. Ids, cursors and `DEFAULT_LAST_ID` are bigints, while the empty-page result of `findLastIdOrDefault` is the JS number `0`. All of them are `int` here.
- `findLastIdOrDefault` accepts `any[]`, and a row without an `id` yields `undefined`. The model instead gives every row a mandatory `int` id, with the other columns as a type parameter.
- Prisma itself is not modelled: query execution, `orderBy`, `take`, and combining the fragment with other conditions under `AND` (src/index.ts:31). `Select` and `Take` over an already-ordered sequence stand in for the query, and only the fragment's meaning (`Matches`) is taken from Prisma's documented behaviour.
- The advice on where to place the fragment among several conditions (src/index.ts:26-29, 47-50) concerns database performance. It has no functional content.
- `dist/index.js` and `dist/index.d.ts` are compiled output of an older version. Both lack `gtLastIdCondition`, and `dist/index.js` also never defines `LAST_ID` or `DEFAULT_LAST_ID`. The model follows `src/index.ts`.
- Paging.Select: its own contract says only that selected rows match and that there are no more of them than input rows. The full membership statement is the separate lemma `Paging.SelectMembership`, and order preservation is `SelectAppend` together with `SelectAllMatch` and `SelectNoneMatch`.
