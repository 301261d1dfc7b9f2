/** How the list handler turns the raw query parameters `status`, `sortBy`
    and `orderBy` into a `where` filter and an `orderBy` clause
    (app/api/tasks/route.ts, GET). A parameter missing from the URL is `None`. */
module ListQuery {
  import opened JsText
  import opened TaskTypes
  import opened Database

  /** The filter the handler builds: soft-deleted rows always excluded, a
      status constraint only for the exact words PENDING and COMPLETED. */
  function ListWhere(status: Option<JsString>): (w: TaskWhere)
    ensures w.deletedAtNull
    ensures w.status == Some(Pending) <==> status == Some(StatusName(Pending))
    ensures w.status == Some(Completed) <==> status == Some(StatusName(Completed))
  {
    if status.Some? && status.value != []
       && (status.value == StatusName(Pending) || status.value == StatusName(Completed))
    then
      TaskWhere(true, Some(if status.value == StatusName(Pending) then Pending else Completed))
    else
      TaskWhere(true, None)
  }

  /** `sortBy || 'createdAt'`, then kept only if it is one of the three
      sortable fields, else `createdAt`. */
  function SortFieldOf(sortBy: Option<JsString>): (f: SortField)
    ensures f == UpdatedAt <==> sortBy == Some(FieldName(UpdatedAt))
    ensures f == Title <==> sortBy == Some(FieldName(Title))
  {
    NamesAreDistinct(Pending, Pending, CreatedAt, UpdatedAt, Asc, Asc);
    var requested := if sortBy.Some? && sortBy.value != [] then sortBy.value else FieldName(CreatedAt);
    if requested == FieldName(CreatedAt) then CreatedAt
    else if requested == FieldName(UpdatedAt) then UpdatedAt
    else if requested == FieldName(Title) then Title
    else CreatedAt
  }

  /** `(orderBy || 'desc') === 'asc' ? 'asc' : 'desc'` */
  function DirectionOf(orderBy: Option<JsString>): (d: SortOrder)
    ensures d == Asc <==> orderBy == Some(OrderName(Asc))
  {
    var requested := if orderBy.Some? && orderBy.value != [] then orderBy.value else OrderName(Desc);
    if requested == OrderName(Asc) then Asc else Desc
  }

  function ListOrder(sortBy: Option<JsString>, orderBy: Option<JsString>): TaskOrder {
    TaskOrder(SortFieldOf(sortBy), DirectionOf(orderBy))
  }

  /** Every status, field and direction is reached by spelling its own name,
      and a request that names none of them gets the defaults. */
  lemma QueryNamesRoundTrip(s: TaskStatus, f: SortField, o: SortOrder)
    ensures ListWhere(Some(StatusName(s))) == TaskWhere(true, Some(s))
    ensures SortFieldOf(Some(FieldName(f))) == f
    ensures DirectionOf(Some(OrderName(o))) == o
    ensures ListWhere(None) == TaskWhere(true, None)
    ensures ListOrder(None, None) == TaskOrder(CreatedAt, Desc)
  {
  }

  /** Whatever the query, the filter never lets a soft-deleted row through. */
  lemma ListWhereExcludesDeleted(status: Option<JsString>, t: Task)
    requires Matches(t, ListWhere(status))
    ensures t.deletedAt.None?
  {
  }
}
