/** The JDBC-backed task store (core/repository/DatabaseTasksRepository.java).
    The `task` table is the field `rows`, in insertion order; each SQL
    statement the source issues is one change to it. Ids and timestamps,
    which the source draws from UUID.randomUUID() and the clock, are
    parameters. */
module DatabaseTasksRepository {
  import opened Wrappers
  import opened TaskModel
  import opened TaskListing

  predicate HasId(rows: seq<Task>, id: string) {
    exists i :: 0 <= i < |rows| && rows[i].id == id
  }

  /** No two rows share an id. */
  predicate UniqueIds(rows: seq<Task>) {
    forall i, j :: 0 <= i < j < |rows| ==> rows[i].id != rows[j].id
  }

  /** The row WHERE id = ?, if there is one. */
  function FindRow(rows: seq<Task>, id: string): (r: Option<Task>)
    ensures r.Some? ==> r.value in rows && r.value.id == id
    ensures r.None? <==> !HasId(rows, id)
    ensures UniqueIds(rows) ==> forall i :: 0 <= i < |rows| && rows[i].id == id ==> r == Some(rows[i])
  {
    if rows == [] then None
    else if rows[0].id == id then Some(rows[0])
    else
      var r := FindRow(rows[1..], id);
      assert forall i :: 1 <= i < |rows| ==> rows[i] == rows[1..][i - 1];
      r
  }

  /** The row mapper of getTaskByID as the source writes it: the status
      column is passed where the constructor expects the text and the text
      column where it expects the status. */
  function ReadRowAsWritten(id: string, row: Task): Task {
    Task(id, row.status, row.text, row.createdAt, row.updatedAt)
  }

  /** The row mapper with the columns in constructor order. */
  function ReadRow(id: string, row: Task): Task {
    Task(id, row.text, row.status, row.createdAt, row.updatedAt)
  }

  /** getTaskByID: queryForObject fails when no row matches. */
  function ReadById(rows: seq<Task>, id: string): (r: Result<Task, StoreError>)
    ensures r.Failure? <==> !HasId(rows, id)
    ensures r.Failure? ==> r.error == EmptyResult
    ensures r.Success? ==> r.value in rows && r.value.id == id
  {
    match FindRow(rows, id)
    case None => Failure(EmptyResult)
    case Some(row) => Success(ReadRow(id, row))
  }

  /** getTaskByID with the row mapper as written. */
  function ReadByIdAsWritten(rows: seq<Task>, id: string): (r: Result<Task, StoreError>)
    ensures r.Failure? <==> !HasId(rows, id)
    ensures r.Failure? ==> r.error == EmptyResult
    ensures r.Success? ==> r.value.id == id && Task(id, r.value.status, r.value.text, r.value.createdAt, r.value.updatedAt) in rows
  {
    match FindRow(rows, id)
    case None => Failure(EmptyResult)
    case Some(row) => Success(ReadRowAsWritten(id, row))
  }

  /** DELETE FROM task WHERE id = ?. */
  function WithoutId(rows: seq<Task>, id: string): (r: seq<Task>)
    ensures forall t :: t in r <==> t in rows && t.id != id
    ensures !HasId(r, id)
    ensures |r| <= |rows|
  {
    if rows == [] then []
    else if rows[0].id == id then WithoutId(rows[1..], id)
    else [rows[0]] + WithoutId(rows[1..], id)
  }

  /** UPDATE task SET text = ?, status = ?, updatedAt = ? WHERE id = ?. */
  function SetFields(rows: seq<Task>, id: string, text: string, status: string, updatedAt: string): (r: seq<Task>)
    ensures |r| == |rows|
    ensures forall i :: 0 <= i < |rows| && rows[i].id != id ==> r[i] == rows[i]
    ensures forall i :: 0 <= i < |rows| && rows[i].id == id ==>
      r[i] == Task(id, text, status, rows[i].createdAt, Some(updatedAt))
  {
    seq(|rows|, i requires 0 <= i < |rows| =>
      if rows[i].id == id then rows[i].(text := text, status := status, updatedAt := Some(updatedAt)) else rows[i])
  }

  /** The tail of a table with distinct ids has distinct ids, none of
      them the head's; an id is in the table exactly when it is the head's
      or in the tail. */
  lemma UniqueTail(rows: seq<Task>, id: string)
    requires UniqueIds(rows) && rows != []
    ensures UniqueIds(rows[1..])
    ensures !HasId(rows[1..], rows[0].id)
    ensures HasId(rows, id) <==> rows[0].id == id || HasId(rows[1..], id)
  {
    var tail := rows[1..];
    forall i, j | 0 <= i < j < |tail| ensures tail[i].id != tail[j].id {
      assert tail[i] == rows[i + 1] && tail[j] == rows[j + 1];
    }
    forall i | 0 <= i < |tail| ensures tail[i].id != rows[0].id {
      assert tail[i] == rows[i + 1];
    }
    if HasId(rows, id) && rows[0].id != id {
      var k :| 0 <= k < |rows| && rows[k].id == id;
      assert tail[k - 1] == rows[k];
    }
    if HasId(tail, id) {
      var k :| 0 <= k < |tail| && tail[k].id == id;
      assert rows[k + 1] == tail[k];
    }
  }

  /** Putting a row in front of a table with distinct ids that lacks its id
      keeps the ids distinct. */
  lemma UniqueCons(t: Task, rest: seq<Task>)
    requires UniqueIds(rest) && !HasId(rest, t.id)
    ensures UniqueIds([t] + rest)
  {
    var r := [t] + rest;
    forall i, j | 0 <= i < j < |r| ensures r[i].id != r[j].id {
      assert r[j] == rest[j - 1];
      if i > 0 {
        assert r[i] == rest[i - 1];
      }
    }
  }

  /** Deleting keeps ids unique and leaves every other row, in order. */
  lemma {:induction false} WithoutIdKeepsOthers(rows: seq<Task>, id: string)
    requires UniqueIds(rows)
    ensures UniqueIds(WithoutId(rows, id))
    ensures HasId(rows, id) ==> |WithoutId(rows, id)| == |rows| - 1
    ensures !HasId(rows, id) ==> WithoutId(rows, id) == rows
  {
    if rows != [] {
      var tail := rows[1..];
      UniqueTail(rows, id);
      WithoutIdKeepsOthers(tail, id);
      if rows[0].id != id {
        var rest := WithoutId(tail, id);
        forall k | 0 <= k < |rest| ensures rest[k].id != rows[0].id {
          assert rest[k] in tail;
        }
        UniqueCons(rows[0], rest);
        assert rows == [rows[0]] + tail;
      }
    }
  }

  /** After an insert with a fresh id, reading that id returns exactly the
      inserted task, and every other id reads as before. */
  lemma AddThenRead(rows: seq<Task>, t: Task, other: string)
    requires UniqueIds(rows) && !HasId(rows, t.id)
    ensures UniqueIds(rows + [t])
    ensures ReadById(rows + [t], t.id) == Success(t)
    ensures other != t.id ==> ReadById(rows + [t], other) == ReadById(rows, other)
  {
    var r := rows + [t];
    assert r[|rows|] == t;
    assert UniqueIds(r) by {
      forall i, j | 0 <= i < j < |r| ensures r[i].id != r[j].id {
        if j == |rows| {
          assert r[i] == rows[i];
        } else {
          assert r[i] == rows[i] && r[j] == rows[j];
        }
      }
    }
    if other != t.id {
      assert HasId(r, other) <==> HasId(rows, other) by {
        if HasId(rows, other) {
          var k :| 0 <= k < |rows| && rows[k].id == other;
          assert r[k] == rows[k];
        }
      }
      if HasId(rows, other) {
        var k :| 0 <= k < |rows| && rows[k].id == other;
        assert r[k] == rows[k];
      }
    }
  }

  /** The mapper as written breaks that round trip: a task added with any
      text other than "inbox" reads back with text "inbox" and its text in
      the status. */
  lemma AddThenReadAsWritten(rows: seq<Task>, t: Task)
    requires UniqueIds(rows) && !HasId(rows, t.id) && t.status == "inbox"
    ensures ReadByIdAsWritten(rows + [t], t.id) == Success(t.(text := "inbox", status := t.text))
    ensures t.text != "inbox" ==> ReadByIdAsWritten(rows + [t], t.id) != Success(t)
  {
    AddThenRead(rows, t, t.id);
  }

  /** After an update, reading the id returns the new text and status with
      the new updatedAt, and keeps id and createdAt; other ids read as
      before; an absent id changes nothing. */
  lemma UpdateThenRead(rows: seq<Task>, id: string, text: string, status: string, now: string, other: string)
    requires UniqueIds(rows)
    ensures UniqueIds(SetFields(rows, id, text, status, now))
    ensures HasId(rows, id) ==>
      ReadById(SetFields(rows, id, text, status, now), id)
      == Success(Task(id, text, status, ReadById(rows, id).value.createdAt, Some(now)))
    ensures other != id ==> ReadById(SetFields(rows, id, text, status, now), other) == ReadById(rows, other)
    ensures !HasId(rows, id) ==> SetFields(rows, id, text, status, now) == rows
  {
    var r := SetFields(rows, id, text, status, now);
    assert forall i :: 0 <= i < |rows| ==> r[i].id == rows[i].id;
    assert HasId(r, other) <==> HasId(rows, other) by {
      if HasId(rows, other) {
        var k :| 0 <= k < |rows| && rows[k].id == other;
        assert r[k].id == other;
      }
    }
    if HasId(rows, id) {
      var k :| 0 <= k < |rows| && rows[k].id == id;
      assert r[k].id == id;
    }
    if other != id && HasId(rows, other) {
      var k :| 0 <= k < |rows| && rows[k].id == other;
      assert r[k] == rows[k];
    }
  }

  /** After a delete, the id no longer reads, and every other id reads as
      before. */
  lemma DeleteThenRead(rows: seq<Task>, id: string, other: string)
    requires UniqueIds(rows)
    ensures ReadById(WithoutId(rows, id), id) == Failure(EmptyResult)
    ensures other != id ==> ReadById(WithoutId(rows, id), other) == ReadById(rows, other)
  {
    var r := WithoutId(rows, id);
    WithoutIdKeepsOthers(rows, id);
    if other != id {
      assert HasId(r, other) <==> HasId(rows, other) by {
        if HasId(rows, other) {
          var k :| 0 <= k < |rows| && rows[k].id == other;
          assert rows[k] in r;
        }
        if HasId(r, other) {
          var k :| 0 <= k < |r| && r[k].id == other;
          assert r[k] in rows;
        }
      }
      if HasId(r, other) {
        var k :| 0 <= k < |r| && r[k].id == other;
        assert r[k] in rows;
      }
    }
  }

  /** The loop of getAllTasks that adds each task the page query mapped
      to the `tasks` array, in order. */
  method CopyListed(selected: seq<Task>, status: string) returns (tasks: seq<Task>)
    ensures tasks == MapListed(selected, status)
  {
    tasks := [];
    for i := 0 to |selected|
      invariant |tasks| == i
      invariant forall k :: 0 <= k < i ==> tasks[k] == ListedTask(selected[k], status)
    {
      tasks := tasks + [ListedTask(selected[i], status)];
    }
  }

  class DatabaseTasksRepository {
    /** The `task` table. */
    var rows: seq<Task>

    /** Ids identify rows. */
    ghost predicate Valid()
      reads this
    {
      UniqueIds(rows)
    }

    constructor ()
      ensures Valid() && rows == []
    {
      rows := [];
    }

    /** addTask: inserts one row with status "inbox", both timestamps set to
        `now` and the request's text, and returns that row. */
    method AddTask(text: string, id: string, now: string) returns (t: Task)
      requires Valid() && !HasId(rows, id)
      modifies this
      ensures Valid()
      ensures t == Task(id, text, "inbox", Some(now), Some(now))
      ensures rows == old(rows) + [t]
    {
      t := Task(id, text, "inbox", Some(now), Some(now));
      AddThenRead(rows, t, id);
      rows := rows + [t];
    }

    /** getTotalTaskCount. */
    function TotalTaskCount(status: string): (n: nat)
      reads this
      ensures n == |WithStatus(rows, status)|
    {
      CountMatchesFilter(rows, status);
      CountWithStatus(rows, status)
    }

    /** getAllTasks: fills in defaults, computes the page arithmetic, runs
        the page query and copies its tasks into the result. */
    method GetAllTasks(status: Option<string>, order: Option<string>, page: Option<Short>, size: Option<Short>,
                       rank: Option<string> -> int)
      returns (r: Result<TaskPage, StoreError>)
      ensures r == Listing(rows, status, order, page, size, rank)
    {
      var p := WithDefaults(status, order, page, size);
      var total := TotalTaskCount(p.status);
      if p.size == 0 {
        return Failure(ArithmeticError);
      }
      var skipped := Skipped(p.size, p.page);
      var direction := DirectionOf(p.order);
      if p.size < 0 || skipped < 0 || direction.None? {
        return Failure(SqlError);
      }
      CountMatchesFilter(rows, p.status);
      var meta := MetaOf(status, order, size, p, total);
      var selected := PageRows(rows, p.status, direction.value, rank, skipped, p.size);
      var tasks := CopyListed(selected, p.status);
      r := Success(TaskPage(meta, tasks));
    }

    /** getTaskByID. */
    method GetTaskByID(id: string) returns (r: Result<Task, StoreError>)
      requires Valid()
      ensures r == ReadById(rows, id)
      ensures HasId(rows, id) ==> exists i :: 0 <= i < |rows| && r == Success(rows[i])
      ensures !HasId(rows, id) ==> r == Failure(EmptyResult)
    {
      r := ReadById(rows, id);
    }

    /** deleteTask: reads the row first (so a missing id fails before the
        DELETE runs), deletes it and returns what was read. */
    method DeleteTask(id: string) returns (r: Result<Task, StoreError>)
      requires Valid()
      modifies this
      ensures Valid()
      ensures r == ReadById(old(rows), id)
      ensures r.Success? ==> rows == WithoutId(old(rows), id) && |rows| == |old(rows)| - 1
      ensures r.Failure? ==> rows == old(rows)
      ensures !HasId(rows, id)
    {
      r := GetTaskByID(id);
      if r.Failure? {
        return;
      }
      WithoutIdKeepsOthers(rows, id);
      rows := WithoutId(rows, id);
    }

    /** updateTask: sets text, status and updatedAt of the row with that id
        (no row, no change) and returns its argument unchanged. */
    method UpdateTask(id: string, newTask: Task, now: string) returns (r: Task)
      requires Valid()
      modifies this
      ensures Valid()
      ensures r == newTask
      ensures rows == SetFields(old(rows), id, newTask.text, newTask.status, now)
      ensures |rows| == |old(rows)|
      ensures forall i :: 0 <= i < |rows| ==>
        rows[i].id == old(rows)[i].id && rows[i].createdAt == old(rows)[i].createdAt
    {
      UpdateThenRead(rows, id, newTask.text, newTask.status, now, id);
      rows := SetFields(rows, id, newTask.text, newTask.status, now);
      r := newTask;
    }
  }
}
