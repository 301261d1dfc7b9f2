/** The list/create route (app/api/tasks/route.ts): the GET handler that
    lists the tasks that are not soft-deleted, filtered and sorted as the
    query asks, and the POST handler that validates a body and creates one
    task. A handler's input is the already-decoded request; its output is
    the HTTP status and the JSON body. */
module TasksRoute {
  import opened JsText
  import opened TaskTypes
  import opened Sorting
  import opened Database
  import opened CreateValidation
  import opened ListQuery

  datatype ResponseBody =
    | ErrorBody(error: JsString)
    | TaskBody(task: Task)
    | TaskListBody(tasks: seq<Task>)

  datatype Response = Response(status: nat, body: ResponseBody)

  const FetchFailed: JsString := FromAscii("Failed to fetch tasks")
  const CreateFailed: JsString := FromAscii("Failed to create task")

  /** The record a created row was built from. */
  function Fields(t: Task): NewTask {
    NewTask(t.title, t.description, t.status)
  }

  /** GET /api/tasks?status=&sortBy=&orderBy= */
  method Get(db: TaskTable, status: Option<JsString>, sortBy: Option<JsString>, orderBy: Option<JsString>)
    returns (resp: Response)
    requires db.Valid()
    ensures resp.status == 200 <==> db.reachable
    ensures !db.reachable ==> resp == Response(500, ErrorBody(FetchFailed))
    ensures db.reachable ==>
      && resp.body.TaskListBody?
      && (forall t :: multiset(resp.body.tasks)[t] ==
            if Matches(t, ListWhere(status)) then multiset(db.rows)[t] else 0)
      && SortedBy(resp.body.tasks, Before(ListOrder(sortBy, orderBy), db.collation))
    ensures resp.status == 200 ==>
      forall t :: t in resp.body.tasks ==> t in db.rows && t.deletedAt.None?
  {
    var where := TaskWhere(deletedAtNull := true, status := None);
    if status.Some? && status.value != []
       && (status.value == StatusName(Pending) || status.value == StatusName(Completed))
    {
      where := where.(status := Some(if status.value == StatusName(Pending) then Pending else Completed));
    }
    assert where == ListWhere(status);
    var found := db.FindMany(where, TaskOrder(SortFieldOf(sortBy), DirectionOf(orderBy)));
    if found.None? {
      return Response(500, ErrorBody(FetchFailed));
    }
    resp := Response(200, TaskListBody(found.value));
    forall t | t in found.value ensures t in db.rows && t.deletedAt.None? {
      assert multiset(found.value)[t] > 0;
    }
  }

  /** POST /api/tasks; `body` is `None` when the request body could not be
      decoded into a create request. */
  method Post(db: TaskTable, body: Option<CreateTaskInput>, now: Timestamp) returns (resp: Response)
    requires db.Valid()
    modifies db
    ensures db.Valid() && db.reachable == old(db.reachable)
    ensures resp.status == 201 || resp.status == 400 || resp.status == 500
    ensures resp.status != 201 ==> db.rows == old(db.rows) && db.nextId == old(db.nextId)
    ensures body.None? ==> resp == Response(500, ErrorBody(CreateFailed))
    ensures body.Some? && Validate(body.value).Err? ==>
      resp == Response(400, ErrorBody(Message(Validate(body.value).error)))
    ensures body.Some? && Validate(body.value).Ok? && !old(db.reachable) ==>
      resp == Response(500, ErrorBody(CreateFailed))
    ensures body.Some? && Validate(body.value).Ok? && old(db.reachable) ==>
      var d := Validate(body.value).value;
      && resp == Response(201, TaskBody(Task(old(db.nextId), d.title, d.description, d.status, now, now, None)))
      && db.rows == old(db.rows) + [resp.body.task]
      && db.nextId == old(db.nextId) + 1
    ensures resp.status == 201 ==> resp.body.TaskBody? && WellFormed(Fields(resp.body.task))
  {
    if body.None? {
      return Response(500, ErrorBody(CreateFailed));
    }
    var checked := Validate(body.value);
    if checked.Err? {
      return Response(400, ErrorBody(Message(checked.error)));
    }
    var created := db.Create(checked.value, now);
    if created.None? {
      return Response(500, ErrorBody(CreateFailed));
    }
    resp := Response(201, TaskBody(created.value));
  }

  /** A task created with only a title comes back PENDING and is listed by a
      following unfiltered GET. */
  method CreateThenList(db: TaskTable, title: JsString, now: Timestamp) returns (created: Response, listed: Response)
    requires db.Valid() && db.reachable
    requires !IsBlank(title) && |title| <= MaxTitleLength
    modifies db
    ensures created.status == 201 && created.body.TaskBody?
    ensures created.body.task.status == Pending && created.body.task.title == Trim(title)
    ensures listed.status == 200 && listed.body.TaskListBody? && created.body.task in listed.body.tasks
  {
    created := Post(db, Some(CreateTaskInput(Some(title), None, None)), now);
    listed := Get(db, None, None, None);
    assert multiset(db.rows)[created.body.task] > 0;
    assert multiset(listed.body.tasks)[created.body.task] > 0;
  }
}
