/** The REST controller (web/controllers/TasksController.java): the checks
    each endpoint makes before it reaches the store, what it passes on, and
    which failure it answers with. The controller is wired to the JDBC store
    (its constructor parameter is named after that store's bean). */
module TasksController {
  import opened Wrappers
  import opened TaskModel
  import opened TaskListing
  import opened DatabaseTasksRepository
  import TaskIdValidator
  import TaskStatusValidator
  import PageOrderValidator

  /** The exceptions the endpoints throw; Storage is an exception thrown by
      the store, which the controller lets pass. */
  datatype ApiError =
    | InvalidTaskStatus
    | InvalidPageOrder
    | InvalidPageSize
    | InvalidTaskID
    | InvalidTaskText
    | TaskNotFound
    | Storage(cause: StoreError)

  /** The page size window of getAllTasks. */
  const PageMinTasksCount := 10
  const PageMaxTasksCount := 50

  /** The response status RestResponseEntityExceptionHandler gives each
      error: 400 for a malformed request, 404 for a bad or unknown id; it
      has no handler for exceptions of the store, which become 500. */
  function HttpStatus(e: ApiError): (code: int)
    ensures code == 400 <==> e.InvalidTaskStatus? || e.InvalidTaskText? || e.InvalidPageOrder? || e.InvalidPageSize?
    ensures code == 404 <==> e.InvalidTaskID? || e.TaskNotFound?
    ensures code == 500 <==> e.Storage?
  {
    match e
    case InvalidTaskStatus | InvalidTaskText | InvalidPageOrder | InvalidPageSize => 400
    case InvalidTaskID | TaskNotFound => 404
    case Storage(_) => 500
  }

  /** The query checks of getAllTasks, in the order the source makes them:
      status, then order, then the size window. The page is not checked. */
  function ListQueryCheck(status: Option<string>, order: Option<string>, size: Option<Short>): (r: Outcome<ApiError>)
    ensures r == Pass <==>
      (status.None? || status.value in StatusList)
      && (order.None? || order.value in OrderList)
      && (size.None? || PageMinTasksCount <= size.value <= PageMaxTasksCount)
  {
    if !TaskStatusValidator.IsValidStatus(status) then Fail(InvalidTaskStatus)
    else if !PageOrderValidator.IsValidOrder(order) then Fail(InvalidPageOrder)
    else if size.Some? && (size.value < PageMinTasksCount || size.value > PageMaxTasksCount) then Fail(InvalidPageSize)
    else Pass
  }

  /** Which error a rejected query gets: a bad status wins over everything,
      a bad order over a bad size. */
  lemma ListQueryErrors(status: Option<string>, order: Option<string>, size: Option<Short>)
    ensures status.Some? && status.value !in StatusList ==>
      ListQueryCheck(status, order, size) == Fail(InvalidTaskStatus)
    ensures (status.None? || status.value in StatusList) && order.Some? && order.value !in OrderList ==>
      ListQueryCheck(status, order, size) == Fail(InvalidPageOrder)
    ensures ListQueryCheck(status, order, size) == Fail(InvalidPageSize) <==>
      (status.None? || status.value in StatusList) && (order.None? || order.value in OrderList)
      && size.Some? && (size.value < PageMinTasksCount || size.value > PageMaxTasksCount)
  {
  }

  /** The two checks accept exactly the lists the store filters and sorts
      by, and the store's defaults pass them. */
  lemma DefaultsAreAccepted(s: string)
    ensures TaskStatusValidator.IsValidStatus(Some(s)) <==> s in StatusList
    ensures PageOrderValidator.IsValidOrder(Some(s)) <==> s in OrderList
    ensures ListQueryCheck(Some(DefaultStatus), Some(DefaultOrder), Some(DefaultSize)) == Pass
  {
  }

  /** getAllTasks: the checks, then the store's listing of the raw
      (not defaulted) parameters. */
  function ListResponse(rows: seq<Task>, status: Option<string>, order: Option<string>, page: Option<Short>,
                        size: Option<Short>, rank: Option<string> -> int): (r: Result<TaskPage, ApiError>)
    ensures ListQueryCheck(status, order, size).Fail? ==> r == Failure(ListQueryCheck(status, order, size).error)
    ensures r.Success? ==> Listing(rows, status, order, page, size, rank) == Success(r.value)
  {
    match ListQueryCheck(status, order, size)
    case Fail(e) => Failure(e)
    case Pass =>
      match Listing(rows, status, order, page, size, rank)
      case Success(pg) => Success(pg)
      case Failure(e) => Failure(Storage(e))
  }

  /** An accepted query always reaches a valid order and status, and then
      lists exactly when the page is absent or at least 1: the page number
      is not checked, and a page below 1 gives a negative OFFSET that the
      database refuses. */
  lemma AcceptedQueryLists(rows: seq<Task>, status: Option<string>, order: Option<string>, page: Option<Short>,
                           size: Option<Short>, rank: Option<string> -> int)
    requires ListQueryCheck(status, order, size) == Pass
    ensures WithDefaults(status, order, page, size).status in StatusList
    ensures WithDefaults(status, order, page, size).order in OrderList
    ensures ListResponse(rows, status, order, page, size, rank).Success? <==> page.None? || page.value >= 1
    ensures page.Some? && page.value < 1 ==>
      ListResponse(rows, status, order, page, size, rank) == Failure(Storage(SqlError))
  {
    ListingSucceedsIff(rows, status, order, page, size, rank);
  }

  /** A lookup of the JDBC store as the controller receives it: the task,
      or the store's exception (queryForObject throws when no row matches,
      it never returns null). */
  function AsNullableAsWritten(lookup: Result<Task, StoreError>): (r: Result<Option<Task>, StoreError>)
    ensures r.Success? <==> lookup.Success?
    ensures r.Success? ==> r.value == Some(lookup.value)
  {
    match lookup
    case Success(t) => Success(Some(t))
    case Failure(e) => Failure(e)
  }

  /** The same lookup with "no row" answered by null, the answer the map
      stores give and the controller's null check expects. */
  function AsNullable(lookup: Result<Task, StoreError>): (r: Result<Option<Task>, StoreError>)
    ensures r == Success(None) <==> lookup == Failure(EmptyResult)
    ensures lookup.Success? ==> r == Success(Some(lookup.value))
    ensures r.Failure? ==> lookup == Failure(r.error) && r.error != EmptyResult
  {
    match lookup
    case Success(t) => Success(Some(t))
    case Failure(EmptyResult) => Success(None)
    case Failure(e) => Failure(e)
  }

  /** The controller's null check: null gives TaskNotFound, an exception of
      the store passes through, a task is returned. */
  function RequireFound(lookup: Result<Option<Task>, StoreError>): (r: Result<Task, ApiError>)
    ensures r.Success? <==> lookup.Success? && lookup.value.Some?
    ensures r.Success? ==> r.value == lookup.value.value
    ensures r == Failure(TaskNotFound) <==> lookup == Success(None)
    ensures lookup.Failure? ==> r == Failure(Storage(lookup.error))
  {
    match lookup
    case Failure(e) => Failure(Storage(e))
    case Success(None) => Failure(TaskNotFound)
    case Success(Some(t)) => Success(t)
  }

  /** A map store answers null for an unknown id, so with it the null check
      produces TaskNotFound. */
  lemma MapStoreMissingIsNotFound(taskMap: map<string, Task>, id: string)
    ensures var lookup := if id in taskMap then Success(Some(taskMap[id])) else Success(None);
      RequireFound(lookup) == if id in taskMap then Success(taskMap[id]) else Failure(TaskNotFound)
  {
  }

  /** getTaskByID as the source writes it: the id check, then the JDBC
      lookup with its swapped row mapper, whose exception for an unknown id
      passes the null check. */
  function LookupAsWritten(rows: seq<Task>, id: string): (r: Result<Task, ApiError>)
    ensures r.Success? <==> TaskIdValidator.IsValidTaskID(id) && HasId(rows, id)
    ensures TaskIdValidator.IsValidTaskID(id) && !HasId(rows, id) ==> r == Failure(Storage(EmptyResult))
    ensures r != Failure(TaskNotFound)
    ensures r.Success? ==> r.value.id == id && Task(id, r.value.status, r.value.text, r.value.createdAt, r.value.updatedAt) in rows
  {
    if !TaskIdValidator.IsValidTaskID(id) then Failure(InvalidTaskID)
    else RequireFound(AsNullableAsWritten(ReadByIdAsWritten(rows, id)))
  }

  /** As written, an unknown well-formed id is answered with 500 (the
      exception has no handler), not with the 404 the null check was written
      for. */
  lemma UnknownIdIsServerError(rows: seq<Task>, id: string)
    requires TaskIdValidator.IsValidTaskID(id) && !HasId(rows, id)
    ensures HttpStatus(LookupAsWritten(rows, id).error) == 500
  {
  }

  /** getTaskByID with "no row" reaching the null check: a bad id, an
      unknown id, or the task with that id. */
  function Lookup(rows: seq<Task>, id: string): (r: Result<Task, ApiError>)
    ensures r == Failure(InvalidTaskID) <==> !TaskIdValidator.IsValidTaskID(id)
    ensures r == Failure(TaskNotFound) <==> TaskIdValidator.IsValidTaskID(id) && !HasId(rows, id)
    ensures r.Success? <==> TaskIdValidator.IsValidTaskID(id) && HasId(rows, id)
    ensures r.Success? ==> r.value in rows && r.value.id == id
  {
    if !TaskIdValidator.IsValidTaskID(id) then Failure(InvalidTaskID)
    else RequireFound(AsNullable(ReadById(rows, id)))
  }

  /** Corrected, a bad or unknown id is answered with 404 and a known one
      succeeds: the lookup never ends in a server error. */
  lemma UnknownIdIsNotFound(rows: seq<Task>, id: string)
    ensures !HasId(rows, id) ==> HttpStatus(Lookup(rows, id).error) == 404
    ensures Lookup(rows, id).Failure? ==> !Lookup(rows, id).error.Storage?
  {
  }

  /** The checks of deleteTaskByID before the DELETE, as written: the id
      check and the JDBC lookup, whose exception for an unknown id passes
      the null check. */
  function DeleteCheckAsWritten(rows: seq<Task>, id: string): (r: Outcome<ApiError>)
    ensures r == Pass <==> TaskIdValidator.IsValidTaskID(id) && HasId(rows, id)
    ensures TaskIdValidator.IsValidTaskID(id) && !HasId(rows, id) ==> r == Fail(Storage(EmptyResult))
  {
    match LookupAsWritten(rows, id)
    case Success(_) => Pass
    case Failure(e) => Fail(e)
  }

  /** As written, deleting an unknown well-formed id is answered with 500. */
  lemma DeleteUnknownIdIsServerError(rows: seq<Task>, id: string)
    requires TaskIdValidator.IsValidTaskID(id) && !HasId(rows, id)
    ensures HttpStatus(DeleteCheckAsWritten(rows, id).error) == 500
  {
  }

  /** The checks of deleteTaskByID, corrected: InvalidTaskID for a
      malformed id, TaskNotFound (404) for an unknown one. */
  function DeleteCheck(rows: seq<Task>, id: string): (r: Outcome<ApiError>)
    ensures r == Pass <==> TaskIdValidator.IsValidTaskID(id) && HasId(rows, id)
    ensures !TaskIdValidator.IsValidTaskID(id) ==> r == Fail(InvalidTaskID)
    ensures TaskIdValidator.IsValidTaskID(id) && !HasId(rows, id) ==>
      r == Fail(TaskNotFound) && HttpStatus(r.error) == 404
  {
    match Lookup(rows, id)
    case Success(_) => Pass
    case Failure(e) => Fail(e)
  }

  /** The request checks of updateTask, in source order: the id, a supplied
      status, a supplied empty text. */
  function UpdateCheck(id: string, text: Option<string>, status: Option<string>): (r: Outcome<ApiError>)
    ensures r == Pass <==>
      TaskIdValidator.IsValidTaskID(id) && (status.None? || status.value in StatusList) && text != Some("")
    ensures !TaskIdValidator.IsValidTaskID(id) ==> r == Fail(InvalidTaskID)
    ensures TaskIdValidator.IsValidTaskID(id) && status.Some? && status.value !in StatusList ==>
      r == Fail(InvalidTaskStatus)
    ensures TaskIdValidator.IsValidTaskID(id) && (status.None? || status.value in StatusList) && text == Some("") ==>
      r == Fail(InvalidTaskText)
    ensures r.Fail? ==> HttpStatus(r.error) == (if r.error == InvalidTaskID then 404 else 400)
  {
    if !TaskIdValidator.IsValidTaskID(id) then Fail(InvalidTaskID)
    else if status.Some? && !TaskStatusValidator.IsValidStatus(status) then Fail(InvalidTaskStatus)
    else if text.Some? && text.value == "" then Fail(InvalidTaskText)
    else Pass
  }

  /** The task updateTask hands to the store: the request's fields where
      given, the stored ones otherwise. */
  function MergeUpdate(id: string, text: Option<string>, status: Option<string>, stored: Task): (t: Task)
    ensures t.id == id && t.createdAt == stored.createdAt && t.updatedAt == stored.updatedAt
    ensures t.text == (if text.Some? then text.value else stored.text)
    ensures t.status == (if status.Some? then status.value else stored.status)
    ensures text == None && status == None && stored.id == id ==> t == stored
  {
    Task(id, text.GetOr(stored.text), status.GetOr(stored.status), stored.createdAt, stored.updatedAt)
  }

  /** updateTask on a table, given what the lookup handed the controller:
      the checks, the existence check, the merge and the UPDATE. */
  function PatchWith(rows: seq<Task>, id: string, text: Option<string>, status: Option<string>, now: string,
                     lookup: Result<Option<Task>, StoreError>): Result<seq<Task>, ApiError>
  {
    match UpdateCheck(id, text, status)
    case Fail(e) => Failure(e)
    case Pass =>
      match RequireFound(lookup)
      case Failure(e) => Failure(e)
      case Success(stored) =>
        var t := MergeUpdate(id, text, status, stored);
        Success(SetFields(rows, id, t.text, t.status, now))
  }

  /** updateTask as the source writes it: the row mapper swaps text and
      status, and an unknown id throws instead of answering null. */
  function PatchedRowsAsWritten(rows: seq<Task>, id: string, text: Option<string>, status: Option<string>,
                                now: string): (r: Result<seq<Task>, ApiError>)
    ensures r != Failure(TaskNotFound)
  {
    PatchWith(rows, id, text, status, now, AsNullableAsWritten(ReadByIdAsWritten(rows, id)))
  }

  /** updateTask corrected: the mapper in constructor order, and "no row"
      answered by null. */
  function PatchedRows(rows: seq<Task>, id: string, text: Option<string>, status: Option<string>,
                       now: string): (r: Result<seq<Task>, ApiError>)
    ensures r.Failure? ==> !r.error.Storage?
  {
    PatchWith(rows, id, text, status, now, AsNullable(ReadById(rows, id)))
  }

  /** As written, a well-formed PATCH of an unknown id ends in the store's
      exception, answered with 500 instead of 404. */
  lemma PatchUnknownIdIsServerError(rows: seq<Task>, id: string, text: Option<string>, status: Option<string>,
                                    now: string)
    requires UpdateCheck(id, text, status) == Pass && !HasId(rows, id)
    ensures PatchedRowsAsWritten(rows, id, text, status, now) == Failure(Storage(EmptyResult))
    ensures HttpStatus(PatchedRowsAsWritten(rows, id, text, status, now).error) == 500
  {
  }

  /** A PATCH fails with the first failed check, then with TaskNotFound
      for an unknown id, and succeeds otherwise. */
  lemma PatchErrors(rows: seq<Task>, id: string, text: Option<string>, status: Option<string>, now: string)
    ensures UpdateCheck(id, text, status).Fail? ==>
      PatchedRows(rows, id, text, status, now) == Failure(UpdateCheck(id, text, status).error)
    ensures UpdateCheck(id, text, status) == Pass && !HasId(rows, id) ==>
      PatchedRows(rows, id, text, status, now) == Failure(TaskNotFound)
    ensures PatchedRows(rows, id, text, status, now).Success? <==>
      UpdateCheck(id, text, status) == Pass && HasId(rows, id)
  {
  }

  /** A PATCH changes only the fields it supplies: the row with that id gets
      the given text and status (the stored ones where omitted) and the new
      updatedAt, keeps id and createdAt, and every other row is unchanged. */
  lemma PatchKeepsOmittedFields(rows: seq<Task>, id: string, text: Option<string>, status: Option<string>,
                                now: string, i: nat)
    requires UniqueIds(rows) && i < |rows| && rows[i].id == id
    requires UpdateCheck(id, text, status) == Pass
    ensures PatchedRows(rows, id, text, status, now).Success?
    ensures var r := PatchedRows(rows, id, text, status, now).value;
      && |r| == |rows|
      && UniqueIds(r)
      && r[i] == Task(id, text.GetOr(rows[i].text), status.GetOr(rows[i].status), rows[i].createdAt, Some(now))
      && (forall j :: 0 <= j < |rows| && j != i ==> r[j] == rows[j])
  {
    assert ReadById(rows, id) == Success(rows[i]);
    var t := MergeUpdate(id, text, status, rows[i]);
    UpdateThenRead(rows, id, t.text, t.status, now, id);
  }

  /** With the lookup as written, a PATCH that omits the text stores the
      old status as the text (and, when the status is omitted too, the old
      text as the status). */
  lemma PatchAsWrittenLosesText(rows: seq<Task>, id: string, status: Option<string>, now: string, i: nat)
    requires UniqueIds(rows) && i < |rows| && rows[i].id == id
    requires UpdateCheck(id, None, status) == Pass
    ensures PatchedRowsAsWritten(rows, id, None, status, now).Success?
    ensures PatchedRowsAsWritten(rows, id, None, status, now).value[i].text == rows[i].status
    ensures status.None? ==> PatchedRowsAsWritten(rows, id, None, status, now).value[i].status == rows[i].text
  {
    assert ReadByIdAsWritten(rows, id) == Success(ReadRowAsWritten(id, rows[i]));
  }

  /** The concrete case: marking "buy milk" done through PATCH {"status":
      "done"} stores the text "inbox". */
  lemma MarkDoneAsWritten()
    ensures var id := "00000000-0000-0000-0000-000000000000";
      var rows := [Task(id, "buy milk", "inbox", Some("t0"), Some("t0"))];
      PatchedRowsAsWritten(rows, id, None, Some("done"), "t1")
        == Success([Task(id, "inbox", "done", Some("t0"), Some("t1"))])
  {
    var id := "00000000-0000-0000-0000-000000000000";
    TaskIdValidator.AcceptsNilUuid();
    var rows := [Task(id, "buy milk", "inbox", Some("t0"), Some("t0"))];
    assert UpdateCheck(id, None, Some("done")) == Pass;
    assert ReadByIdAsWritten(rows, id) == Success(Task(id, "inbox", "buy milk", Some("t0"), Some("t0")));
    var merged := MergeUpdate(id, None, Some("done"), Task(id, "inbox", "buy milk", Some("t0"), Some("t0")));
    assert merged.text == "inbox" && merged.status == "done";
    var r := SetFields(rows, id, merged.text, merged.status, "t1");
    assert r[0] == Task(id, "inbox", "done", Some("t0"), Some("t1"));
    assert r == [Task(id, "inbox", "done", Some("t0"), Some("t1"))];
  }

  class TasksController {
    const repository: DatabaseTasksRepository

    constructor (repository: DatabaseTasksRepository)
      ensures this.repository == repository
    {
      this.repository := repository;
    }

    /** GET /tasks. */
    method GetAllTasks(status: Option<string>, order: Option<string>, page: Option<Short>, size: Option<Short>,
                       rank: Option<string> -> int)
      returns (r: Result<TaskPage, ApiError>)
      ensures r == ListResponse(repository.rows, status, order, page, size, rank)
    {
      var check := ListQueryCheck(status, order, size);
      if check.Fail? {
        return Failure(check.error);
      }
      var listing := repository.GetAllTasks(status, order, page, size, rank);
      if listing.Failure? {
        return Failure(Storage(listing.error));
      }
      r := Success(listing.value);
    }

    /** POST /tasks: adds the task and answers with its location. */
    method CreateTask(text: string, id: string, now: string) returns (location: string)
      requires repository.Valid() && !HasId(repository.rows, id)
      modifies repository
      ensures repository.Valid()
      ensures location == "/tasks/" + id
      ensures repository.rows == old(repository.rows) + [Task(id, text, "inbox", Some(now), Some(now))]
      ensures ReadById(repository.rows, id) == Success(Task(id, text, "inbox", Some(now), Some(now)))
    {
      AddThenRead(repository.rows, Task(id, text, "inbox", Some(now), Some(now)), id);
      var t := repository.AddTask(text, id, now);
      location := "/tasks/" + t.id;
    }

    /** GET /tasks/{id}. */
    method GetTaskByID(id: string) returns (r: Result<Task, ApiError>)
      requires repository.Valid()
      ensures r == Lookup(repository.rows, id)
    {
      if !TaskIdValidator.IsValidTaskID(id) {
        return Failure(InvalidTaskID);
      }
      var found := repository.GetTaskByID(id);
      r := RequireFound(AsNullable(found));
    }

    /** DELETE /tasks/{id}: the id check and the lookup, then the delete;
        the table changes only when all of them pass. */
    method DeleteTaskByID(id: string) returns (r: Outcome<ApiError>)
      requires repository.Valid()
      modifies repository
      ensures repository.Valid()
      ensures r == DeleteCheck(old(repository.rows), id)
      ensures r.Fail? ==> repository.rows == old(repository.rows)
      ensures r == Pass ==>
        && repository.rows == WithoutId(old(repository.rows), id)
        && |repository.rows| == |old(repository.rows)| - 1
        && ReadById(repository.rows, id) == Failure(EmptyResult)
    {
      var found := GetTaskByID(id);
      if found.Failure? {
        return Fail(found.error);
      }
      var deleted := repository.DeleteTask(id);
      DeleteThenRead(old(repository.rows), id, id);
      r := Pass;
    }

    /** PATCH /tasks/{id}. The source looks the task up once for the
        existence check and four more times for the merge; with nothing
        written in between they all return the same task, read once here. */
    method UpdateTask(id: string, text: Option<string>, status: Option<string>, now: string)
      returns (r: Outcome<ApiError>)
      requires repository.Valid()
      modifies repository
      ensures repository.Valid()
      ensures PatchedRows(old(repository.rows), id, text, status, now).Success? ==>
        r == Pass && repository.rows == PatchedRows(old(repository.rows), id, text, status, now).value
      ensures PatchedRows(old(repository.rows), id, text, status, now).Failure? ==>
        r == Fail(PatchedRows(old(repository.rows), id, text, status, now).error)
        && repository.rows == old(repository.rows)
    {
      var check := UpdateCheck(id, text, status);
      if check.Fail? {
        return Fail(check.error);
      }
      var found := repository.GetTaskByID(id);
      var stored := RequireFound(AsNullable(found));
      if stored.Failure? {
        return Fail(stored.error);
      }
      var merged := MergeUpdate(id, text, status, stored.value);
      var updated := repository.UpdateTask(id, merged, now);
      r := Pass;
    }
  }
}
