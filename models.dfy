/** The record and request shapes of the task service, with the field rules
    that the request types declare for their binder (internal/models/task.go).

    Nullable columns and pointer fields are `Option`s; `status` and `priority`
    of a `Task` are plain strings, as they are NOT NULL columns. In a
    `CreateTaskRequest` an unset status or priority is the empty string, in an
    `UpdateTaskRequest` every field is an `Option` and `None` means "not sent". */
module Models {

  datatype Option<T> = None | Some(value: T)

  /** An instant of the store's clock. */
  type Timestamp = nat

  /** One row of the `tasks` table. */
  datatype Task = Task(
    id: int,
    title: string,
    description: Option<string>,
    status: string,
    priority: string,
    projectId: Option<int>,
    assignedTo: Option<int>,
    dueDate: Option<Timestamp>,
    createdAt: Timestamp,
    updatedAt: Timestamp)

  /** Body of a create request; `status` and `priority` are "" when omitted. */
  datatype CreateTaskRequest = CreateTaskRequest(
    title: string,
    description: Option<string>,
    status: string,
    priority: string,
    projectId: Option<int>,
    assignedTo: Option<int>,
    dueDate: Option<Timestamp>)

  /** Body of a partial update; `None` is both "absent" and "null". */
  datatype UpdateTaskRequest = UpdateTaskRequest(
    title: Option<string>,
    description: Option<string>,
    status: Option<string>,
    priority: Option<string>,
    projectId: Option<int>,
    assignedTo: Option<int>,
    dueDate: Option<Timestamp>)

  const MinTitleLength: nat := 3
  const Statuses: set<string> := {"todo", "in_progress", "done", "archived"}
  const Priorities: set<string> := {"low", "medium", "high", "urgent"}

  /** `min=3`: the length counts characters (runes), not bytes. */
  predicate TitleOk(title: string)
    ensures TitleOk(title) ==> title != ""  // so `required` holds as well
  {
    |title| >= MinTitleLength
  }

  /** `oneof=todo in_progress done archived` */
  predicate StatusOk(status: string)
    ensures StatusOk(status) ==> status != ""  // never the "omitted" marker
  {
    status in Statuses
  }

  /** `oneof=low medium high urgent` */
  predicate PriorityOk(priority: string)
    ensures PriorityOk(priority) ==> priority != ""
  {
    priority in Priorities
  }

  /** The binder's rules for a create request: title required with at least
      three characters; status and priority either omitted or enumerated. */
  predicate ValidCreateRequest(req: CreateTaskRequest)
    ensures ValidCreateRequest(req) ==> req.title != ""
  {
    && TitleOk(req.title)
    && (req.status == "" || StatusOk(req.status))
    && (req.priority == "" || PriorityOk(req.priority))
  }

  /** The binder's rules for an update request: each of title, status and
      priority is either absent or obeys the same rule as on creation. */
  predicate ValidUpdateRequest(req: UpdateTaskRequest)
    ensures ValidUpdateRequest(req) && req.title.Some? ==> req.title.value != ""
    ensures ValidUpdateRequest(req) && req.status.Some? ==> req.status.value != ""
  {
    && (req.title.Some? ==> TitleOk(req.title.value))
    && (req.status.Some? ==> StatusOk(req.status.value))
    && (req.priority.Some? ==> PriorityOk(req.priority.value))
  }

  /** The table-wide rule every stored row is meant to keep. */
  predicate ValidTask(t: Task)
    ensures ValidTask(t) ==> t.title != "" && t.status != "" && t.priority != ""
  {
    TitleOk(t.title) && StatusOk(t.status) && PriorityOk(t.priority)
  }
}
