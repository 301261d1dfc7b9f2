/** The shapes of the task API: the persisted task record (the database
    model), the body of a create request, and the fixed words the API uses
    for statuses, sort fields and sort directions. */
module TaskTypes {
  import opened JsText

  datatype Option<+T> = None | Some(value: T) {
    /** `value ?? default` */
    function GetOr(default: T): T {
      match this
      case Some(v) => v
      case None => default
    }
  }

  datatype Result<+T, +E> = Ok(value: T) | Err(error: E)

  datatype TaskStatus = Pending | Completed

  /** An abstract point in time, as the database's clock hands it out. */
  type Timestamp = nat

  /** A stored row; `deletedAt` set marks a soft-deleted task. */
  datatype Task = Task(
    id: nat,
    title: JsString,
    description: Option<JsString>,
    status: TaskStatus,
    createdAt: Timestamp,
    updatedAt: Timestamp,
    deletedAt: Option<Timestamp>)

  /** The fields a create call hands to the database. */
  datatype NewTask = NewTask(title: JsString, description: Option<JsString>, status: TaskStatus)

  /** A decoded create request; a field the JSON body lacks is `None`. */
  datatype CreateTaskInput = CreateTaskInput(
    title: Option<JsString>,
    description: Option<JsString>,
    status: Option<TaskStatus>)

  datatype SortField = CreatedAt | UpdatedAt | Title

  datatype SortOrder = Asc | Desc

  function StatusName(s: TaskStatus): JsString {
    match s
    case Pending => FromAscii("PENDING")
    case Completed => FromAscii("COMPLETED")
  }

  function FieldName(f: SortField): JsString {
    match f
    case CreatedAt => FromAscii("createdAt")
    case UpdatedAt => FromAscii("updatedAt")
    case Title => FromAscii("title")
  }

  function OrderName(o: SortOrder): JsString {
    match o
    case Asc => FromAscii("asc")
    case Desc => FromAscii("desc")
  }

  /** Distinct statuses, fields and directions are spelled differently, and
      none is spelled as the empty string. */
  lemma NamesAreDistinct(s: TaskStatus, s': TaskStatus, f: SortField, f': SortField, o: SortOrder, o': SortOrder)
    ensures StatusName(s) != [] && FieldName(f) != [] && OrderName(o) != []
    ensures StatusName(s) == StatusName(s') ==> s == s'
    ensures FieldName(f) == FieldName(f') ==> f == f'
    ensures OrderName(o) == OrderName(o') ==> o == o'
  {
    assert FieldName(CreatedAt)[0] != FieldName(UpdatedAt)[0];
  }
}
