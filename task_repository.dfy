/** The data-access layer of the task service
    (internal/repository/task_repository.go): five operations on the single
    `tasks` table, here an in-memory map from id to row held by a class.

    What the store decides on its own is an input of each operation: the id it
    assigns, the value of NOW(), whether the statement fails, and (for the
    listing) how it breaks ties between rows created at the same instant. */
module Repository {
  import opened Models

  /** The error a wrapped `%w` error carries: pgx's "no rows in result set" or
      any other failure of the store (connectivity, constraint, scan). */
  datatype Cause = NoRows | StoreFailure

  /** A returned error: the prefix the repository wraps it with and, when it
      wraps one, the store's own error. */
  datatype Error = Error(context: string, cause: Option<Cause>)

  datatype Result<T> = Ok(value: T) | Err(error: Error)

  /** How a listing query may fail: the query itself; the scan of the row at
      position `row` of the returned page; or the row stream, which breaks
      (lost connection, cancelled context, an error raised while the query
      executes) before delivering the row at position `row`. */
  datatype ListFault = NoFault | QueryFailed | ScanFailed(row: nat) | StreamFailed(row: nat)

  const DefaultStatus := "todo"
  const DefaultPriority := "medium"

  function Min(a: int, b: int): int {
    if a <= b then a else b
  }

  /** An empty request value stands for "use the default". */
  function OrDefault(given: string, default: string): string {
    if given == "" then default else given
  }

  /** The row the INSERT ... RETURNING statement of Create produces. */
  function NewTask(id: int, req: CreateTaskRequest, now: Timestamp): (t: Task)
    ensures t.id == id && t.createdAt == now && t.updatedAt == now
    ensures ValidCreateRequest(req) ==> ValidTask(t)
  {
    Task(id, req.title, req.description,
         OrDefault(req.status, DefaultStatus), OrDefault(req.priority, DefaultPriority),
         req.projectId, req.assignedTo, req.dueDate, now, now)
  }

  /** COALESCE($n, column) for a NOT NULL column. */
  function Coalesce<T>(given: Option<T>, column: T): T {
    if given.Some? then given.value else column
  }

  /** COALESCE($n, column) for a nullable column: a NULL parameter keeps it. */
  function CoalesceNullable<T>(given: Option<T>, column: Option<T>): Option<T> {
    if given.Some? then given else column
  }

  /** The row the UPDATE ... RETURNING statement of Update produces. */
  function ApplyUpdate(t: Task, req: UpdateTaskRequest, now: Timestamp): (u: Task)
    ensures u.id == t.id && u.createdAt == t.createdAt && u.updatedAt == now
    ensures ValidTask(t) && ValidUpdateRequest(req) ==> ValidTask(u)
    // an absent field and an explicit null are both None: no request clears a column
    ensures t.description.Some? ==> u.description.Some?
    ensures t.projectId.Some? ==> u.projectId.Some?
    ensures t.assignedTo.Some? ==> u.assignedTo.Some?
    ensures t.dueDate.Some? ==> u.dueDate.Some?
  {
    t.(title := Coalesce(req.title, t.title),
       description := CoalesceNullable(req.description, t.description),
       status := Coalesce(req.status, t.status),
       priority := Coalesce(req.priority, t.priority),
       projectId := CoalesceNullable(req.projectId, t.projectId),
       assignedTo := CoalesceNullable(req.assignedTo, t.assignedTo),
       dueDate := CoalesceNullable(req.dueDate, t.dueDate),
       updatedAt := now)
  }

  /** Create resolves an empty status to "todo" and an empty priority to
      "medium", and copies every other request field into the row. */
  lemma CreateDefaults(id: int, req: CreateTaskRequest, now: Timestamp)
    ensures NewTask(id, req, now).status == if req.status == "" then "todo" else req.status
    ensures NewTask(id, req, now).priority == if req.priority == "" then "medium" else req.priority
    ensures StatusOk(NewTask(id, req, now).status) <==> req.status == "" || StatusOk(req.status)
    ensures PriorityOk(NewTask(id, req, now).priority) <==> req.priority == "" || PriorityOk(req.priority)
    ensures var t := NewTask(id, req, now);
      && t.title == req.title && t.description == req.description
      && t.projectId == req.projectId && t.assignedTo == req.assignedTo
      && t.dueDate == req.dueDate
  {
  }

  /** The partial-update frame: a field present in the request overwrites
      its column, an absent one leaves the column as stored. */
  lemma UpdateFrame(t: Task, req: UpdateTaskRequest, now: Timestamp)
    ensures var u := ApplyUpdate(t, req, now);
      && u.title == (if req.title.Some? then req.title.value else t.title)
      && u.status == (if req.status.Some? then req.status.value else t.status)
      && u.priority == (if req.priority.Some? then req.priority.value else t.priority)
      && u.description == (if req.description.Some? then req.description else t.description)
      && u.projectId == (if req.projectId.Some? then req.projectId else t.projectId)
      && u.assignedTo == (if req.assignedTo.Some? then req.assignedTo else t.assignedTo)
      && u.dueDate == (if req.dueDate.Some? then req.dueDate else t.dueDate)
  {
  }

  // ---------------------------------------------------------------------
  // Listing: WHERE ($1 = '' OR status = $1) ORDER BY created_at DESC
  //          LIMIT $2 OFFSET $3

  /** The WHERE clause of GetAll. */
  predicate Matches(t: Task, status: string) {
    status == "" || t.status == status
  }

  /** The rows the WHERE clause selects. */
  ghost function Eligible(tasks: map<int, Task>, status: string): set<Task> {
    set t | t in tasks.Values && Matches(t, status)
  }

  /** The ids of the rows the WHERE clause selects. */
  ghost function SelectedIds(tasks: map<int, Task>, status: string): set<int> {
    set k | k in tasks && Matches(tasks[k], status)
  }

  /** The rows stored under a set of ids. */
  ghost function RowsOf(tasks: map<int, Task>, ids: set<int>): set<Task>
    requires ids <= tasks.Keys
  {
    set k | k in ids :: tasks[k]
  }

  /** Some member of a non-empty set of ids. */
  ghost function PickId(ids: set<int>): (picked: int)
    requires ids != {}
    ensures picked in ids
  {
    assert exists i :: i in ids by {
      if forall i :: i !in ids {
        assert false;
      }
    }
    var i :| i in ids; i
  }

  /** Rows stored under their own ids differ from one another, so a set of
      ids holds exactly as many rows as ids. */
  lemma {:induction false} RowsOfCount(tasks: map<int, Task>, ids: set<int>)
    requires forall k :: k in tasks ==> tasks[k].id == k
    requires ids <= tasks.Keys
    ensures |RowsOf(tasks, ids)| == |ids|
    decreases |ids|
  {
    if ids != {} {
      var id := PickId(ids);
      RowsOfCount(tasks, ids - {id});
      RowsOfSplit(tasks, ids, id);
    }
  }

  /** Splitting one id off a set of ids splits its row off the rows, and that
      row is not among the others. */
  lemma RowsOfSplit(tasks: map<int, Task>, ids: set<int>, k: int)
    requires forall j :: j in tasks ==> tasks[j].id == j
    requires ids <= tasks.Keys && k in ids
    ensures RowsOf(tasks, ids) == RowsOf(tasks, ids - {k}) + {tasks[k]}
    ensures tasks[k] !in RowsOf(tasks, ids - {k})
  {
  }

  /** When each row is stored under its own id, the selected row values are
      exactly as many as the selected rows. */
  lemma SelectedCount(tasks: map<int, Task>, status: string)
    requires forall k :: k in tasks ==> tasks[k].id == k
    ensures |Eligible(tasks, status)| == |SelectedIds(tasks, status)|
  {
    RowsOfCount(tasks, SelectedIds(tasks, status));
    assert Eligible(tasks, status) == RowsOf(tasks, SelectedIds(tasks, status));
  }

  ghost predicate NonIncreasing(s: seq<Task>) {
    forall i, j :: 0 <= i < j < |s| ==> s[i].createdAt >= s[j].createdAt
  }

  ghost predicate Distinct(s: seq<Task>) {
    forall i, j :: 0 <= i < j < |s| ==> s[i] != s[j]
  }

  /** `s` lists every row of `rows` exactly once, latest creation first;
      rows created at the same instant may come in any order. */
  ghost predicate IsOrdering(s: seq<Task>, rows: set<Task>) {
    NonIncreasing(s) && Distinct(s) && (forall t :: t in s <==> t in rows)
  }

  /** A row of `rows` created no earlier than any other. */
  ghost function Latest(rows: set<Task>): (t: Task)
    requires rows != {}
    ensures t in rows && forall u :: u in rows ==> u.createdAt <= t.createdAt
    decreases |rows|
  {
    var x :| x in rows;
    if rows == {x} then x
    else
      var y := Latest(rows - {x});
      if x.createdAt <= y.createdAt then y else x
  }

  /** One ordering of any finite set of rows: so ORDER BY created_at DESC
      always has an answer, whatever the table holds. */
  ghost function Ordering(rows: set<Task>): (s: seq<Task>)
    ensures IsOrdering(s, rows)
    decreases |rows|
  {
    if rows == {} then []
    else
      var t := Latest(rows);
      var rest := Ordering(rows - {t});
      [t] + rest
  }

  /** An ordering of `rows` has exactly one element per row. */
  lemma {:induction false} OrderingLength(s: seq<Task>, rows: set<Task>)
    requires Distinct(s) && forall t :: t in s <==> t in rows
    ensures |s| == |rows|
    decreases |s|
  {
    if s != [] {
      var rest := s[1..];
      assert s == [s[0]] + rest;
      assert Distinct(rest) by {
        forall i, j | 0 <= i < j < |rest| ensures rest[i] != rest[j] {
          assert rest[i] == s[i + 1] && rest[j] == s[j + 1];
        }
      }
      forall t ensures t in rest <==> t in rows - {s[0]} {
        if t in rest {
          var j :| 0 <= j < |rest| && rest[j] == t;
          assert s[j + 1] == t;
        }
      }
      OrderingLength(rest, rows - {s[0]});
    }
  }

  /** LIMIT `limit` OFFSET `offset`: the rows from position `offset` on, at
      most `limit` of them; an offset past the end leaves nothing. */
  function Window<T>(s: seq<T>, limit: nat, offset: nat): (w: seq<T>)
    ensures |w| <= limit
    ensures |w| == if offset >= |s| then 0 else Min(limit, |s| - offset)
    ensures forall i :: 0 <= i < |w| ==> w[i] == s[offset + i]
  {
    if offset >= |s| then [] else s[offset .. offset + Min(limit, |s| - offset)]
  }

  /** A page of an ordering is itself latest-first, duplicate-free, and
      drawn from the ordered rows. */
  lemma WindowOfOrdering(s: seq<Task>, rows: set<Task>, limit: nat, offset: nat)
    requires IsOrdering(s, rows)
    ensures var w := Window(s, limit, offset);
      NonIncreasing(w) && Distinct(w) && forall t :: t in w ==> t in rows
  {
  }

  /** limit=1, offset=1 over three rows, latest first, is the second latest. */
  lemma SecondPage(s: seq<Task>)
    requires |s| == 3
    ensures Window(s, 1, 1) == [s[1]]
  {
  }

  /** An empty status filter selects every row of the table. */
  lemma EmptyFilterSelectsAll(tasks: map<int, Task>)
    ensures Eligible(tasks, "") == tasks.Values
    ensures SelectedIds(tasks, "") == tasks.Keys
  {
  }

  /** A non-empty status filter selects exactly the rows with that status. */
  lemma FilterSelectsStatus(tasks: map<int, Task>, status: string)
    requires status != ""
    ensures forall t :: t in Eligible(tasks, status) <==> t in tasks.Values && t.status == status
  {
  }

  /** What GetAll returns for the page the store sends, as the code is
      written: the loop ends as soon as the stream stops delivering rows, and
      since the stream's own error is never consulted, a broken stream reads
      as the end of the page. */
  function ListOutcome(page: seq<Task>, fault: ListFault): (r: Result<seq<Task>>)
    ensures r.Err? <==> fault.QueryFailed? || (fault.ScanFailed? && fault.row < |page|)
    ensures r.Ok? ==> r.value <= page
    ensures r.Ok? && !(fault.StreamFailed? && fault.row < |page|) ==> r.value == page
  {
    match fault
    case NoFault => Ok(page)
    case QueryFailed => Err(Error("failed to get tasks", Some(StoreFailure)))
    case ScanFailed(j) =>
      if j < |page| then Err(Error("failed to scan task", Some(StoreFailure))) else Ok(page)
    case StreamFailed(k) => if k < |page| then Ok(page[..k]) else Ok(page)
  }

  /** A stream that breaks inside the page yields a success holding only the
      rows delivered before the break: a truncated page nobody is told about. */
  lemma BrokenStreamLooksComplete(page: seq<Task>, k: nat)
    requires k < |page|
    ensures ListOutcome(page, StreamFailed(k)) == Ok(page[..k])
    ensures ListOutcome(page, StreamFailed(k)) != Ok(page)
  {
  }

  /** The listing outcome with the stream's error consulted after the loop:
      all or nothing, a success is always the whole page. */
  function CheckedListOutcome(page: seq<Task>, fault: ListFault): (r: Result<seq<Task>>)
    ensures r.Ok? <==> !(fault.QueryFailed? || (fault.ScanFailed? && fault.row < |page|)
                         || (fault.StreamFailed? && fault.row < |page|))
    ensures r.Ok? ==> r.value == page
  {
    match fault
    case StreamFailed(k) =>
      if k < |page| then Err(Error("failed to read tasks", Some(StoreFailure))) else Ok(page)
    case _ => ListOutcome(page, fault)
  }

  /** Consulting rows.Err() changes nothing unless the stream breaks inside the page. */
  lemma CheckedAgreesOtherwise(page: seq<Task>, fault: ListFault)
    requires !(fault.StreamFailed? && fault.row < |page|)
    ensures CheckedListOutcome(page, fault) == ListOutcome(page, fault)
  {
  }

  // ---------------------------------------------------------------------

  class TaskRepository {
    /** The `tasks` table, keyed by id. */
    var tasks: map<int, Task>

    /** Each row is stored under its own id. */
    ghost predicate Valid()
      reads this
    {
      forall k :: k in tasks ==> tasks[k].id == k
    }

    /** Every row obeys the title, status and priority rules. */
    ghost predicate RowsValid()
      reads this
    {
      forall k :: k in tasks ==> ValidTask(tasks[k])
    }

    /** A repository attaches to the table as it already is; the store keys
        each row by its id. */
    constructor (initial: map<int, Task>)
      requires forall k :: k in initial ==> initial[k].id == k
      ensures Valid() && tasks == initial
      ensures (forall k :: k in initial ==> ValidTask(initial[k])) ==> RowsValid()
    {
      tasks := initial;
    }

    /** INSERT one row with defaults substituted; `id` and `now` are what the
        store assigns, `fault` whether the statement fails. */
    method Create(req: CreateTaskRequest, id: int, now: Timestamp, fault: bool)
      returns (r: Result<Task>)
      requires Valid()
      requires id !in tasks
      modifies this
      ensures Valid()
      ensures r.Ok? <==> !fault
      ensures r.Err? ==> tasks == old(tasks) && r.error == Error("failed to create task", Some(StoreFailure))
      ensures r.Ok? ==> tasks == old(tasks)[id := r.value] && r.value == NewTask(id, req, now)
      ensures r.Ok? ==> r.value.status == (if req.status == "" then "todo" else req.status)
      ensures r.Ok? ==> r.value.priority == (if req.priority == "" then "medium" else req.priority)
      ensures r.Ok? ==> && r.value.title == req.title && r.value.description == req.description
                        && r.value.projectId == req.projectId && r.value.assignedTo == req.assignedTo
                        && r.value.dueDate == req.dueDate && r.value.createdAt == r.value.updatedAt
      ensures r.Ok? ==> |tasks| == |old(tasks)| + 1
      ensures old(RowsValid()) && ValidCreateRequest(req) ==> RowsValid()
    {
      if fault {
        return Err(Error("failed to create task", Some(StoreFailure)));
      }
      var t := NewTask(id, req, now);
      tasks := tasks[id := t];
      return Ok(t);
    }

    /** SELECT the row with the given id; every failure is wrapped as
        "task not found", whether the row is missing or the store failed. */
    method GetByID(id: int, fault: bool) returns (r: Result<Task>)
      requires Valid()
      ensures r.Ok? <==> !fault && id in tasks
      ensures r.Ok? ==> r.value == tasks[id] && r.value.id == id
      ensures r.Err? ==> r.error.context == "task not found"
      ensures r.Err? ==> r.error.cause == Some(if fault then StoreFailure else NoRows)
    {
      if fault {
        return Err(Error("task not found", Some(StoreFailure)));
      }
      if id !in tasks {
        return Err(Error("task not found", Some(NoRows)));
      }
      return Ok(tasks[id]);
    }

    /** SELECT the rows matching the status filter, latest first, one page.
        `storeOrder` is the order in which the store ranks the selected rows
        (ties on created_at broken as it pleases); the loop scans the page row
        by row, drops everything on a scan failure, and stops without error
        when the stream breaks. */
    method GetAll(status: string, limit: nat, offset: nat, storeOrder: seq<Task>, fault: ListFault)
      returns (r: Result<seq<Task>>)
      requires Valid()
      requires IsOrdering(storeOrder, Eligible(tasks, status))
      ensures r == ListOutcome(Window(storeOrder, limit, offset), fault)
      ensures r.Err? <==> (fault.QueryFailed?
                           || (fault.ScanFailed? && fault.row < |Window(storeOrder, limit, offset)|))
      ensures r.Err? ==> r.error == Error(if fault.QueryFailed? then "failed to get tasks"
                                          else "failed to scan task", Some(StoreFailure))
      ensures r.Ok? ==> r.value <= Window(storeOrder, limit, offset)
      ensures r.Ok? ==> NonIncreasing(r.value) && Distinct(r.value)
      ensures r.Ok? ==> forall t :: t in r.value ==> t in tasks.Values && Matches(t, status)
      ensures r.Ok? && !fault.StreamFailed? ==> var n := |SelectedIds(tasks, status)|;
                        |r.value| == if offset >= n then 0 else Min(limit, n - offset)
    {
      if fault.QueryFailed? {
        return Err(Error("failed to get tasks", Some(StoreFailure)));
      }
      var page := Window(storeOrder, limit, offset);
      WindowOfOrdering(storeOrder, Eligible(tasks, status), limit, offset);
      OrderingLength(storeOrder, Eligible(tasks, status));
      SelectedCount(tasks, status);
      var scanned: seq<Task> := [];
      var i := 0;
      while i < |page|
        invariant 0 <= i <= |page|
        invariant scanned == page[..i]
        invariant !(fault.ScanFailed? && fault.row < i)
        invariant !(fault.StreamFailed? && fault.row < i)
      {
        if fault == StreamFailed(i) {
          // rows.Next() reports false and the loop ends as if the page were over
          break;
        }
        if fault == ScanFailed(i) {
          return Err(Error("failed to scan task", Some(StoreFailure)));
        }
        scanned := scanned + [page[i]];
        i := i + 1;
      }
      assert i == |page| || fault == StreamFailed(i);
      assert i == |page| ==> scanned == page;
      assert forall t :: t in scanned ==> t in page;
      return Ok(scanned);
    }

    /** UPDATE ... SET column = COALESCE($n, column), updated_at = NOW();
        a missing id yields no row, which the scan reports as NoRows. */
    method Update(id: int, req: UpdateTaskRequest, now: Timestamp, fault: bool)
      returns (r: Result<Task>)
      requires Valid()
      modifies this
      ensures Valid()
      ensures r.Ok? <==> !fault && id in old(tasks)
      ensures r.Err? ==> tasks == old(tasks)
      ensures r.Err? ==> r.error == Error("failed to update task",
                                          Some(if fault then StoreFailure else NoRows))
      ensures r.Ok? ==> r.value == ApplyUpdate(old(tasks)[id], req, now)
      ensures r.Ok? ==> tasks == old(tasks)[id := r.value]
      ensures r.Ok? ==> r.value.id == id && r.value.createdAt == old(tasks)[id].createdAt
                        && r.value.updatedAt == now
      ensures old(RowsValid()) && ValidUpdateRequest(req) ==> RowsValid()
    {
      if fault {
        return Err(Error("failed to update task", Some(StoreFailure)));
      }
      if id !in tasks {
        return Err(Error("failed to update task", Some(NoRows)));
      }
      var u := ApplyUpdate(tasks[id], req, now);
      tasks := tasks[id := u];
      return Ok(u);
    }

    /** DELETE the row with the given id; zero affected rows is an error of
        its own, with nothing wrapped. */
    method Delete(id: int, fault: bool) returns (r: Result<()>)
      requires Valid()
      modifies this
      ensures Valid()
      ensures r.Ok? <==> !fault && id in old(tasks)
      ensures r.Ok? ==> tasks == old(tasks) - {id} && id !in tasks
      ensures r.Err? ==> tasks == old(tasks)
      ensures r.Err? ==> r.error == if fault then Error("failed to delete task", Some(StoreFailure))
                                    else Error("task not found", None)
      ensures old(RowsValid()) ==> RowsValid()
    {
      if fault {
        return Err(Error("failed to delete task", Some(StoreFailure)));
      }
      if id !in tasks {
        return Err(Error("task not found", None));
      }
      tasks := tasks - {id};
      return Ok(());
    }
  }

  /** A client of the repository: a created row reads back as created, and
      deleting it twice fails the second time, leaving the table as before. */
  method CreateReadDeleteTwice(repo: TaskRepository, id: int, req: CreateTaskRequest, now: Timestamp)
    returns (created: Result<Task>, fetched: Result<Task>, second: Result<()>)
    requires repo.Valid() && id !in repo.tasks
    modifies repo
    ensures created.Ok? && fetched == created
    ensures second == Err(Error("task not found", None))
    ensures repo.Valid() && repo.tasks == old(repo.tasks)
  {
    created := repo.Create(req, id, now, false);
    fetched := repo.GetByID(id, false);
    var first := repo.Delete(id, false);
    second := repo.Delete(id, false);
  }
}
