# Task list/create API, modelled in Dafny

This project models the list/create endpoint of a small task-tracking web
application. The endpoint is `/api/tasks`, in `app/api/tasks/route.ts`. A task has:

- a title;
- an optional description;
- a status, `PENDING` or `COMPLETED`;
- creation and update timestamps;
- an optional `deleted_at` timestamp that marks it soft-deleted.

The endpoint has two handlers:

- **GET** reads three optional query parameters, `status`, `sortBy` and
  `orderBy`. From them it builds a `where` filter and an `orderBy` clause, asks
  the task table for the matching rows, and answers 200 with the list. When
  the table fails, it answers 500 with `Failed to fetch tasks`.
- **POST** checks a JSON body `{title, description?, status?}` in this order:
  1. the title is missing or blank;
  2. the raw title is longer than 255;
  3. a non-empty raw description is longer than 1000.

  The first failing check decides the 400 message. Otherwise the handler
  trims the title, trims the description or turns it into `null`, defaults
  the status to `PENDING`, stores one row and answers 201 with it. If the
  body cannot be decoded or the table fails, it answers 500 with
  `Failed to create task`.

The project has seven modules:

- `JsText` (`js_text.dfy`) covers JavaScript strings as sequences of UTF-16
  code units, so that `s.length` is `|s|`. It models `String.prototype.trim`
  using the WhiteSpace and LineTerminator productions of ECMA-262. It also
  gives an independent description of trimming (`IsTrimOf`), which is proved
  to determine the result uniquely.
- `TaskTypes` (`task_types.dfy`) holds the task record, the create-request
  shape and the fixed words of the API.
- `Sorting` (`sorting.dfy`) orders rows by any total preorder. It is proved
  to return a rearrangement of its input in sorted order.
- `Database` (`database.dfy`) is the task table behind `prisma.task`. It is a
  class holding the rows, the next id, a flag for whether the database
  answers, and the title collation. It has the two calls the route makes,
  `create` and `findMany`.
- `CreateValidation` (`create_validation.dfy`) holds the POST checks and the
  normalisation.
- `ListQuery` (`list_query.dfy`) holds the GET filter, the sort-field
  whitelist and the sort direction.
- `TasksRoute` (`tasks_route.dfy`) holds the two handlers as methods over the
  table. Each returns an HTTP status and a JSON body.

Both length limits follow the code, which measures the raw strings:

- The title limit of 255 is checked on the raw title, before trimming. A
  title of 300 code units that trims to 200 is therefore refused.
- The description limit of 1000 is also checked on the raw string. A
  description of 1001 spaces is refused, although it would be stored as
  `null`.

A reading of the limits as holding "after trimming" would accept both. The
lemmas `TitleLimitIsOnRawLength` and `DescriptionLimitIsOnRawLength` state
what the code does.

## Model

| member | source | states |
|---|---|---|
| JsText.Trim | app/api/tasks/route.ts:70-71 | `trim` returns `s` with a blank prefix and a blank suffix removed, and the result starts and ends with a non-white-space unit. The result is empty exactly when `s` is all white space. |
| JsText.TrimUnique | app/api/tasks/route.ts:70-71 | Whenever `s` splits into a blank prefix, a trimmed middle and a blank suffix, `trim(s)` is that middle. So the description above determines `trim` completely. |
| JsText.TrimmedIsFixed | app/api/tasks/route.ts:70-71 | Trimming an already-trimmed string changes nothing. In particular, `trim` is idempotent. |
| CreateValidation.Validate | app/api/tasks/route.ts:47-66 | Title missing or blank gives `Title is required…`. Otherwise a raw title over 255 gives `Title must be 255…`. Otherwise a description with raw length over 1000 gives `Description must be 1000…`. Each case holds in both directions. An accepted body yields the normalised record, and that record is well-formed: a non-empty trimmed title of at most 255 and, if present, a non-empty trimmed description of at most 1000. |
| CreateValidation.Normalise | app/api/tasks/route.ts:68-73 | The stored title is the input title with its surrounding white space removed. The description is `null` exactly when it is absent or blank; otherwise it is the trimmed description. The status is the given one, or `PENDING` when absent. |
| CreateValidation.NormaliseWellFormed | app/api/tasks/route.ts:47-73 | A body that passes the three checks normalises to a well-formed record. The title is non-empty and at most 255 because trimming only shortens. |
| CreateValidation.ResubmitIsFixedPoint | app/api/tasks/route.ts:47-73 | Submitting the fields of a well-formed record again is accepted and yields the same record. |
| CreateValidation.NormaliseIdempotent | app/api/tasks/route.ts:68-73 | Re-submitting the record built from any accepted body yields that record unchanged. |
| CreateValidation.TitleLimitIsOnRawLength | app/api/tasks/route.ts:54-59 | For a non-blank title, acceptance holds exactly when the raw length is at most 255. So 255 passes and 256 is refused. |
| CreateValidation.DescriptionLimitIsOnRawLength | app/api/tasks/route.ts:61-66 | With a valid title, a description is accepted exactly when its raw length is at most 1000. An empty description is accepted. |
| ListQuery.ListWhere | app/api/tasks/route.ts:14-20 | The filter always requires `deleted_at = null`. It constrains the status to PENDING or COMPLETED exactly when the parameter is that word, and it ignores every other value. |
| ListQuery.SortFieldOf | app/api/tasks/route.ts:11-23 | The sort field is `updatedAt` or `title` exactly when `sortBy` names it. Otherwise, including when `sortBy` is absent or empty, it is `createdAt`. |
| ListQuery.DirectionOf | app/api/tasks/route.ts:28 | The direction is ascending exactly when `orderBy` is `asc`. Otherwise, including the default of line 12, it is descending. |
| ListQuery.QueryNamesRoundTrip | app/api/tasks/route.ts:10-28 | Spelling a status, field or direction by its own name selects it. With no parameters the result is an unfiltered status, `createdAt` and descending order. |
| ListQuery.ListWhereExcludesDeleted | app/api/tasks/route.ts:14-16 | Whatever the query, a task that passes the filter is not soft-deleted. |
| Database.Select | app/api/tasks/route.ts:25-26 | The selected rows are exactly the stored rows that match the `where` filter, each as often as it is stored. |
| Database.BeforeIsTotalPreorder | app/api/tasks/route.ts:27-29 | Ordering by any sort field, in either direction, is a total preorder, provided the title collation is one. |
| Sorting.SortBySorted | app/api/tasks/route.ts:27-29 | Sorting by a total preorder yields a sequence in that order (`SortBy` itself is proved to keep the same multiset of rows). |
| Database.TaskTable.Create | app/api/tasks/route.ts:68-74 | When the database answers, `create` appends exactly one row. That row has a fresh id, the given fields, both timestamps set to now, and it is not deleted. When the database does not answer, nothing changes. |
| Database.TaskTable.FindMany | app/api/tasks/route.ts:25-30 | `findMany` returns exactly the matching rows, sorted by the requested field and direction. It fails only when the database does not answer. |
| TasksRoute.Get | app/api/tasks/route.ts:7-40 | The response is 200 exactly when the table answers, and 500 with `Failed to fetch tasks` otherwise. The 200 list is exactly the stored tasks that are not deleted and match the status filter, sorted by the chosen field and direction. No listed task is soft-deleted. |
| TasksRoute.Post | app/api/tasks/route.ts:43-84 | An undecodable body gives 500. A refused body gives 400 with the message of the first failing check. An accepted body gives 201 with the newly appended, well-formed row, or 500 if the table fails. The table changes only on 201, when it gains exactly that row and its next id advances by one. |
| TasksRoute.CreateThenList | app/api/tasks/route.ts:7-84 | A task created with only a valid title comes back `PENDING`, with its title trimmed. A following unfiltered GET lists it. |

## Left out

- The single-task routes in `app/api/tasks/[id]/route.ts` (get by id, update, soft delete) are not part of this model. Soft-deleted rows enter the modelled table only as rows it already holds when constructed.
- The UI in `app/page.tsx` is not part of this model. This includes its status toggle and the query string it builds.
- The `UpdateTaskInput` and `TaskFilters` shapes of `types/task.ts` are not used by the modelled route, so they have no datatype.
- The database engine is abstract:
  - Id assignment is a next-id counter.
  - The clock is a `now` parameter.
  - The title collation is an arbitrary total preorder fixed when the table is built.
  - The order of rows whose sort keys tie is left unspecified.
- Database failures are modelled only as a `reachable` flag: when it is false, every call throws. Connection handling, timeouts and partial failures are not modelled.
- Request decoding is not modelled: the Next.js request/response plumbing, URL parsing, `request.json()` and `NextResponse.json`.
  - GET receives already-decoded optional strings.
  - POST receives `None` when the body cannot be decoded, and the handler answers 500.
  - A falsy title (`0`, `false`, `""`, `null`) counts as absent, because `!body.title` holds for it, so such a body is `CreateTaskInput(None, …)` and gets 400 `Title is required and cannot be empty`.
  - A truthy title that is not a string (a non-zero number, `true`, an object or an array) reaches `.trim()`, which throws. Such a body is treated as undecodable (`None`) and gets 500.
  - A description that is neither a string nor `null`/absent (a number, including `0`, a boolean, including `false`, or a plain object without a `length` above 1000) gets past the length check, because it is falsy or its `.length` is undefined. `?.trim()` then throws, because `?.` skips only `null` and `undefined`. Such a body is likewise `None` and gets 500.
  - An array or object description whose `length` exceeds 1000 (`[…1001 items]`, `{"length": 2000}`, or `{"length": "5000"}` after coercion) is refused with 400 before `.trim()` is reached. This case is not modelled. A shorter array gets 500 like the values above.
  - A JSON body that is not an object: `null` throws at `body.title` and gets 500, so it is `None`. A number, string, boolean or array body has an undefined `title` and gets 400 `Title is required and cannot be empty`, so it is `CreateTaskInput(None, None, None)`.
  - Server-side logging of errors is omitted.
- CreateValidation.Normalise: the status of a create request is typed as PENDING or COMPLETED, because the handler does not check it at run time. An empty-string status, which JavaScript would replace by `PENDING`, is not modelled. Neither is any other string, which the database would reject, giving 500.
