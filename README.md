# Task repository model

A Dafny model of the data-access layer of a small task-tracking HTTP service.
The service keeps one relational table, `tasks`. Its repository offers five
operations on it: Create, GetByID, GetAll (a filtered, ordered, paginated
listing), Update (a COALESCE-based partial update) and Delete.

- `models.dfy`, module `Models`: the `Task` row and the two request bodies as
  datatypes. Nullable columns and pointer fields are `Option`s, while `status`
  and `priority` of a `Task` are plain strings. The binder rules of the request
  types are predicates:
  - `TitleOk`: title length at least 3.
  - `StatusOk`: status in `todo`/`in_progress`/`done`/`archived`.
  - `PriorityOk`: priority in `low`/`medium`/`high`/`urgent`.
  - `ValidCreateRequest`: title required; status and priority each empty or
    enumerated.
  - `ValidUpdateRequest`: each of title, status and priority absent or obeying
    the same rule.
  - `ValidTask`: the table-wide rule for stored rows.
- `task_repository.dfy`, module `Repository`: the class `TaskRepository` owns
  the table as a `map<int, Task>` field. Each operation is a method, and its
  contract follows the operation's SQL statement and Go branches. The statements'
  effects are the functions `NewTask` (INSERT with defaults) and `ApplyUpdate`
  (COALESCE per column, `updated_at = NOW()`). The functions `Window`
  (LIMIT/OFFSET), `Eligible` and `SelectedIds` (the rows and the ids the WHERE
  clause selects) and the predicate `IsOrdering`
  (ORDER BY `created_at` DESC) state the listing.

What the store decides is an explicit input of each method:
- the id it assigns, which must be fresh;
- the value of `NOW()`, as a `nat` clock;
- whether the statement fails (`fault`); for GetAll, also whether a row's scan
  fails or the row stream breaks part-way;
- for GetAll, the order in which it ranks the selected rows (`storeOrder`).

`storeOrder` must be an ordering of the eligible rows: every row exactly once,
`created_at` non-increasing. Rows with equal `created_at` may come in any order,
because the query leaves that order open. The ghost function `Ordering` builds
such an ordering for any set of rows, so GetAll's precondition can always be met.

The table carries two invariants:
- `Valid`: each row is stored under its own id. Every method requires it and keeps it.
- `RowsValid`: every row obeys the title, status and priority rules. Create keeps
  it when its request satisfies `ValidCreateRequest`, and Update when its request
  satisfies `ValidUpdateRequest`. The repository performs no validation of its
  own, so an invalid request can break `RowsValid`.

Errors carry the wrapping text the repository uses ("failed to create task",
"task not found", ...) and the wrapped store error (`NoRows` or `StoreFailure`),
if there is one.
- GetByID wraps every failure as "task not found", including a store failure that
  is not a missing row. Only the wrapped cause tells the two apart.
- Update reports a missing id as "failed to update task" wrapping `NoRows`.
- Delete reports zero affected rows as a plain "task not found".
- An error always leaves the table unchanged.
- GetAll never consults the row stream's own error after its loop. A stream that
  breaks part-way therefore ends the loop like a finished page, and the rows read
  so far come back as a success (see "## Findings").

## Model

| member | source | states |
|---|---|---|
| Models.TitleOk | internal/models/task.go:19 | A title is accepted iff it has at least 3 characters. An accepted title is never empty, so `required` holds as well. |
| Models.StatusOk | internal/models/task.go:21 | A status is accepted iff it is one of todo, in_progress, done, archived. An accepted status is never the empty "omitted" value. |
| Models.PriorityOk | internal/models/task.go:22 | A priority is accepted iff it is one of low, medium, high, urgent. An accepted priority is never empty. |
| Models.ValidCreateRequest | internal/models/task.go:19-22 | A create request passes the binder iff its title is accepted, and its status and priority are each omitted (empty) or accepted. A passing request always has a non-empty title. |
| Models.ValidUpdateRequest | internal/models/task.go:29-32 | An update request passes the binder iff each of title, status and priority is absent or accepted. A title or status that is sent is then non-empty. |
| Models.ValidTask | internal/models/task.go:5-22 | The rule a stored row is meant to keep: the create rules for title, status and priority hold for the row. Such a row has non-empty title, status and priority. |
| Repository.NewTask | internal/repository/task_repository.go:20-44 | The inserted row has the store-assigned id, and `created_at` = `updated_at` = now. A request that passes the create rules of internal/models/task.go:19-22 yields a row satisfying the table rule: title length ≥ 3, status and priority enumerated. |
| Repository.CreateDefaults | internal/repository/task_repository.go:26-34 | Status is "todo" when the request's status is empty and the given status otherwise; likewise "medium" for priority. The stored status is in the enumeration iff the request's is empty or enumerated. Title, description, project_id, assigned_to and due_date are copied from the request. |
| Repository.ApplyUpdate | internal/repository/task_repository.go:133-156 | The updated row keeps its id and created_at and gets updated_at = now. A valid row under a valid update request stays valid. A nullable column that holds a value still holds one after any update, so no request can reset it to null. |
| Repository.UpdateFrame | internal/repository/task_repository.go:135-141 | Each column whose request field is present is overwritten by it. Each column whose field is absent keeps its stored value. |
| Repository.Latest | internal/repository/task_repository.go:98 | Every non-empty set of rows has a member created no earlier than any other. |
| Repository.Ordering | internal/repository/task_repository.go:98 | Every finite set of rows has an ordering: each row exactly once, created_at non-increasing. |
| Repository.OrderingLength | internal/repository/task_repository.go:97-98 | An ordering of the selected rows has exactly as many elements as there are selected rows. |
| Repository.Window | internal/repository/task_repository.go:99 | The page holds at most `limit` rows, taken consecutively from position `offset`. Its length is min(limit, n − offset), or 0 when offset ≥ n. |
| Repository.WindowOfOrdering | internal/repository/task_repository.go:98-99 | A page of an ordering is non-increasing by created_at, has no duplicates, and holds only selected rows. |
| Repository.SecondPage | internal/repository/task_repository.go:99 | limit = 1, offset = 1 over three rows ordered latest first gives exactly the second-latest row. |
| Repository.EmptyFilterSelectsAll | internal/repository/task_repository.go:97 | An empty status filter selects every row of the table. |
| Repository.FilterSelectsStatus | internal/repository/task_repository.go:97 | A non-empty status filter selects exactly the rows whose status equals it. |
| Repository.RowsOfCount | internal/repository/task_repository.go:95-97 | When every row is stored under its own id, a set of ids names exactly as many distinct rows as it has ids. |
| Repository.SelectedCount | internal/repository/task_repository.go:97 | The rows the WHERE clause selects, counted as values, are exactly as many as the selected ids, so GetAll's page lengths count table rows. |
| Repository.TaskRepository.constructor | internal/repository/task_repository.go:15-17 | A new repository attaches to the table as it already stands, whatever rows it holds; the rows are keyed by id, and the table rule holds when every existing row obeys it. |
| Repository.TaskRepository.Create | internal/repository/task_repository.go:19-63 | On success, exactly one row is added under the fresh id and no other row changes. The returned task equals the stored row: defaults applied, request fields copied, created_at = updated_at. A failure returns "failed to create task" and leaves the table unchanged. A valid request keeps the table rule. |
| Repository.TaskRepository.GetByID | internal/repository/task_repository.go:65-91 | Succeeds iff the id is present and the store does not fail, returning the stored row with that id. Every failure is "task not found", whether the row is missing or the store failed. |
| Repository.TaskRepository.GetAll | internal/repository/task_repository.go:93-130 | The outcome is `ListOutcome` of the LIMIT/OFFSET page of the store's ordering of the filtered rows. A success is a prefix of that page: every element matches the filter and is a row of the table, and the rows are non-increasing by created_at with no duplicates. Without a stream failure, a success is the whole page, of length min(limit, n − offset), or 0 past the end, where n is the number of rows (ids) the filter selects. A query failure or a scan failure within the page returns an error and no partial list. A stream that breaks inside the page returns the rows before the break as a success. The table is never modified. |
| Repository.ListOutcome | internal/repository/task_repository.go:102-129 | The listing outcome as written: an error iff the query fails or a row's scan fails within the page; every success is a prefix of the page, and the whole page unless the stream broke inside it. |
| Repository.BrokenStreamLooksComplete | internal/repository/task_repository.go:109-129 | A stream that breaks before row k < page length yields success with just the first k rows, which differs from the page. |
| Repository.CheckedListOutcome | internal/repository/task_repository.go:109-129 | The listing outcome with the stream's error checked after the loop: success iff no query, scan or stream failure falls inside the page, and every success is the whole page. |
| Repository.CheckedAgreesOtherwise | internal/repository/task_repository.go:109-129 | The checked and the as-written outcome coincide unless the stream breaks inside the page. |
| Repository.TaskRepository.Update | internal/repository/task_repository.go:132-175 | On success, only the row with that id changes, into the COALESCE update of the old row, and the result is that row. A missing id or a store failure returns "failed to update task" and leaves the table unchanged. A valid request keeps the table rule. |
| Repository.TaskRepository.Delete | internal/repository/task_repository.go:177-190 | Succeeds iff the id is present and the store does not fail, and then removes exactly that row. Zero affected rows gives a plain "task not found", and a store failure gives "failed to delete task". On error the table is unchanged. |
| Repository.CreateReadDeleteTwice | internal/repository/task_repository.go:177-189 | A created row reads back equal to what Create returned. Deleting it succeeds the first time and fails with "task not found" the second time, and the table ends as it began. |

## Left out

- The connection pool, `context.Context` cancellation and the driver's row scanning: they are foreign library calls. A store failure is a `fault` input that leaves the table unchanged. It yields an error, except in GetAll, where a broken row stream yields the rows read so far as a success.
- Id generation, the real clock (`NOW()`, `time.Time`) and the table schema are not part of this model. Ids are caller-supplied fresh keys, and instants are `nat` ticks. Possible CHECK or NOT NULL constraints of the schema are not modelled; a statement they would reject is one more `fault`.
- Repository.TaskRepository.GetAll: `limit` and `offset` are `nat`. A negative value makes the store raise an error while the query executes. As the code is written, that error reaches the loop as a stream that breaks before its first row, `StreamFailed(0)`, and gives an empty success; negative arguments themselves are not modelled. The handler's clamp to `limit ≤ 100` is not required, since the repository does not need it.
- Repository.TaskRepository.GetAll: an empty result is an empty sequence. The nil slice Go returns, and its JSON `null`, are serialisation and not modelled.
- Repository.TaskRepository.Create: the repository does not check the request, so the table rule is kept only for requests that pass the binder rules, and the model states it that way.
- Repository.TaskRepository.Update: the clock is an input with no monotonicity, so `created_at ≤ updated_at` after an update is not claimed.
- Integer widths: Go `int` ids and `*int` references are unbounded `int`s here. Title length counts characters, as the binder counts runes.
- The HTTP handler, configuration loading and server bootstrap (internal/handlers/task_handler.go, internal/config/config.go, cmd/api/main.go): they are HTTP, environment and process plumbing. JSON field names are not modelled either.

## Findings

| source | as written | input that shows it | evidently intended | confidence | as-written member | corrected member |
|---|---|---|---|---|---|---|
| internal/repository/task_repository.go:109-129 | The `for rows.Next()` loop ends without consulting `rows.Err()`, so a stream that breaks mid-page returns the rows read so far with a nil error. | A page of 3 rows whose stream breaks before row 1 (`StreamFailed(1)`): `Ok` holding only the first row. | Check the stream's error after the loop and return an error with no partial list, so a listing is all or nothing. | high; not executed | Repository.ListOutcome, Repository.BrokenStreamLooksComplete | Repository.CheckedListOutcome, Repository.CheckedAgreesOtherwise |
