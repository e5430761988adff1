/** Cursor ("no-offset") pagination helpers.

A client pages through a table by remembering the id of the last row it has
seen. The helpers below turn that cursor into a `where` fragment for the
data-access layer and read the cursor for the next page off a result page.
A cursor of zero or less means "no cursor": the first page, unfiltered.
 */
module NoOffset {

  /** The cursor a request carries when the client sent none: the first page. */
  const DefaultLastId: int := 0

  /** A result row. Only `id` is inspected; `data` stands for every other
      column, whatever the domain. */
  datatype Row<P> = Row(id: int, data: P)

  /** A `where` fragment on the id column: the empty object, `{ id: { lt: bound } }`
      or `{ id: { gt: bound } }`. */
  datatype Condition = Empty | Lt(bound: int) | Gt(bound: int)

  /** The meaning of a fragment: which row ids it lets through. The empty
      fragment is ignored by the query builder, so it constrains nothing. */
  predicate Matches(cond: Condition, rowId: int)
  {
    match cond
    case Empty => true
    case Lt(v) => rowId < v
    case Gt(v) => rowId > v
  }

  /** Fragment for pages ordered by descending id: the rows older than the cursor. */
  function LtLastIdCondition(lastId: int): (c: Condition)
    ensures c.Empty? <==> lastId <= 0
    ensures !c.Gt?
    ensures c.Lt? ==> c.bound == lastId
    ensures forall rowId :: Matches(c, rowId) <==> (lastId <= 0 || rowId < lastId)
  {
    if lastId <= 0 then Empty else Lt(lastId)
  }

  /** Fragment for pages ordered by ascending id: the rows newer than the cursor. */
  function GtLastIdCondition(lastId: int): (c: Condition)
    ensures c.Empty? <==> lastId <= 0
    ensures !c.Lt?
    ensures c.Gt? ==> c.bound == lastId
    ensures forall rowId :: Matches(c, rowId) <==> (lastId <= 0 || rowId > lastId)
  {
    if lastId <= 0 then Empty else Gt(lastId)
  }

  /** The cursor for the page after `rows`: the id of its last row, or the
      first-page sentinel when the page is empty. */
  function FindLastIdOrDefault<P>(rows: seq<Row<P>>): (lastId: int)
    ensures |rows| == 0 ==> lastId == DefaultLastId
    ensures |rows| > 0 ==> lastId == rows[|rows| - 1].id
  {
    if |rows| == 0 then DefaultLastId else rows[|rows| - 1].id
  }

  /** Whatever the cursor, the first-page sentinel and every non-positive
      cursor make both builders return the empty fragment, which every row
      satisfies. */
  lemma NonPositiveCursorIsUnfiltered(lastId: int, rowId: int)
    requires lastId <= DefaultLastId
    ensures LtLastIdCondition(lastId) == Empty && GtLastIdCondition(lastId) == Empty
    ensures Matches(LtLastIdCondition(lastId), rowId) && Matches(GtLastIdCondition(lastId), rowId)
  {
  }

  /** For a positive cursor the two builders split the ids other than the
      cursor itself: every such id is selected by exactly one of them, and
      the cursor's own row by neither. */
  lemma BuildersPartitionIds(lastId: int, rowId: int)
    requires lastId > 0
    ensures !Matches(LtLastIdCondition(lastId), lastId) && !Matches(GtLastIdCondition(lastId), lastId)
    ensures rowId != lastId ==>
              (Matches(LtLastIdCondition(lastId), rowId) <==> !Matches(GtLastIdCondition(lastId), rowId))
  {
  }

  /** Appending a row to any page makes that row's id the next cursor; the
      rows before it and its other columns play no part. */
  lemma LastIdOfAppended<P>(rows: seq<Row<P>>, r: Row<P>)
    ensures FindLastIdOrDefault(rows + [r]) == r.id
  {
  }

  /** Two non-empty pages whose last rows carry the same id give the same
      cursor, whatever else they hold. */
  lemma LastIdDependsOnLastRowOnly<P, Q>(a: seq<Row<P>>, b: seq<Row<Q>>)
    requires |a| > 0 && |b| > 0
    requires a[|a| - 1].id == b[|b| - 1].id
    ensures FindLastIdOrDefault(a) == FindLastIdOrDefault(b)
  {
  }
}
