/** The task table behind `prisma.task`: the rows it holds, the id it hands
    out next, whether it answers at all, and the collation it sorts titles
    by. Only the two calls the list/create route makes are modelled:
    `create` and `findMany`. */
module Database {
  import opened JsText
  import opened TaskTypes
  import opened Sorting

  /** A `where` object: `deletedAtNull` stands for the key
      `deleted_at: null`, `status` for an optional `status` key. */
  datatype TaskWhere = TaskWhere(deletedAtNull: bool, status: Option<TaskStatus>)

  /** An `orderBy` object `{ [field]: direction }`. */
  datatype TaskOrder = TaskOrder(field: SortField, direction: SortOrder)

  predicate Matches(t: Task, w: TaskWhere) {
    && (w.deletedAtNull ==> t.deletedAt.None?)
    && (w.status.Some? ==> t.status == w.status.value)
  }

  /** The rows a `where` object selects, each as often as it is stored. */
  function Select(rows: seq<Task>, w: TaskWhere): (r: seq<Task>)
    ensures forall t :: multiset(r)[t] == if Matches(t, w) then multiset(rows)[t] else 0
  {
    if rows == [] then []
    else
      assert rows == [rows[0]] + rows[1..];
      (if Matches(rows[0], w) then [rows[0]] else []) + Select(rows[1..], w)
  }

  /** `a` is not after `b` by the key `field`, ascending. */
  predicate KeyAtMost(a: Task, b: Task, field: SortField, collation: (JsString, JsString) -> bool) {
    match field
    case CreatedAt => a.createdAt <= b.createdAt
    case UpdatedAt => a.updatedAt <= b.updatedAt
    case Title => collation(a.title, b.title)
  }

  /** The order an `orderBy` object asks for. */
  function Before(order: TaskOrder, collation: (JsString, JsString) -> bool): (Task, Task) -> bool {
    (a: Task, b: Task) =>
      if order.direction == Asc then KeyAtMost(a, b, order.field, collation)
      else KeyAtMost(b, a, order.field, collation)
  }

  lemma BeforeIsTotalPreorder(order: TaskOrder, collation: (JsString, JsString) -> bool)
    requires IsTotalPreorder(collation)
    ensures IsTotalPreorder(Before(order, collation))
  {
    var before := Before(order, collation);
    forall a, b ensures before(a, b) || before(b, a) {
      if order.field == Title { assert collation(a.title, b.title) || collation(b.title, a.title); }
    }
    forall a, b, c | before(a, b) && before(b, c) ensures before(a, c) {
      if order.field == Title {
        if order.direction == Asc {
          assert collation(a.title, b.title) && collation(b.title, c.title);
        } else {
          assert collation(c.title, b.title) && collation(b.title, a.title);
        }
      }
    }
  }

  /** Ids strictly increase along the table and stay below the next id. */
  ghost predicate IdsFresh(rows: seq<Task>, nextId: nat) {
    && (forall i, j :: 0 <= i < j < |rows| ==> rows[i].id < rows[j].id)
    && (forall i :: 0 <= i < |rows| ==> rows[i].id < nextId)
  }

  class TaskTable {
    var rows: seq<Task>
    var nextId: nat
    /** False while the database cannot be reached: every call then throws. */
    var reachable: bool
    /** The database's ordering of titles. */
    const collation: (JsString, JsString) -> bool

    ghost predicate Valid()
      reads this
    {
      IsTotalPreorder(collation) && IdsFresh(rows, nextId)
    }

    constructor (rows: seq<Task>, nextId: nat, reachable: bool, collation: (JsString, JsString) -> bool)
      requires IsTotalPreorder(collation) && IdsFresh(rows, nextId)
      ensures Valid()
      ensures this.rows == rows && this.nextId == nextId
      ensures this.reachable == reachable && this.collation == collation
    {
      this.rows := rows;
      this.nextId := nextId;
      this.reachable := reachable;
      this.collation := collation;
    }

    /** `prisma.task.create({ data })`: appends exactly one row, under a fresh
        id, stamped with the current time and not deleted. */
    method Create(data: NewTask, now: Timestamp) returns (created: Option<Task>)
      requires Valid()
      modifies this
      ensures Valid() && reachable == old(reachable)
      ensures created.Some? <==> old(reachable)
      ensures created.Some? ==>
        && created.value == Task(old(nextId), data.title, data.description, data.status, now, now, None)
        && rows == old(rows) + [created.value]
        && nextId == old(nextId) + 1
      ensures created.None? ==> rows == old(rows) && nextId == old(nextId)
      ensures created.Some? ==> forall t :: t in old(rows) ==> t.id < created.value.id
    {
      if !reachable {
        return None;
      }
      var task := Task(nextId, data.title, data.description, data.status, now, now, None);
      rows := rows + [task];
      nextId := nextId + 1;
      created := Some(task);
    }

    /** `prisma.task.findMany({ where, orderBy })`: exactly the matching rows,
        each as often as it is stored, in the requested order. */
    method FindMany(where: TaskWhere, order: TaskOrder) returns (found: Option<seq<Task>>)
      requires Valid()
      ensures found.Some? <==> reachable
      ensures found.Some? ==>
        forall t :: multiset(found.value)[t] == if Matches(t, where) then multiset(rows)[t] else 0
      ensures found.Some? ==> SortedBy(found.value, Before(order, collation))
    {
      if !reachable {
        return None;
      }
      var before := Before(order, collation);
      var selected := Select(rows, where);
      BeforeIsTotalPreorder(order, collation);
      SortBySorted(selected, before);
      found := Some(SortBy(selected, before));
    }
  }
}
