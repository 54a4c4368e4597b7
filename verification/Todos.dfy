/** `todos.rs`: the todo repository, its lifecycle, and what a replica of its changes converges to. */
module Todos {
  import opened Domain
  import opened Text
  import ETag
  import opened Records
  import opened SyncLog
  import opened SyncRepos

  /** The todo table, the ids of the memos of the workspace and the change log. */
  datatype TodoDb = TodoDb(todos: map<string, Todo>, memos: set<string>, log: Log)

  datatype CreateRequest = CreateRequest(
    id: Option<string>,
    title: string,
    note: string,
    status: Option<string>,
    dueDate: Option<string>,
    priority: Option<int>,
    linkedMemoId: Option<string>)

  datatype UpdateRequest = UpdateRequest(
    title: Option<string>,
    note: Option<string>,
    status: Option<string>,
    dueDate: Option<Option<string>>,
    priority: Option<int>,
    linkedMemoId: Option<Option<string>>,
    baseRevision: Option<int>,
    ifMatchEtag: Option<string>)

  predicate ValidFields(status: string, priority: int) {
    status in ["inbox", "open", "completed"] && 0 <= priority <= 3
  }

  predicate LinkExists(db: TodoDb, link: Option<string>) {
    link.None? || link.value in db.memos
  }

  /** `base_revision` and `if_match_etag`, where given, name the row as it is. */
  predicate Current(row: Todo, baseRevision: Option<int>, ifMatchEtag: Option<string>) {
    && (baseRevision.Some? ==> baseRevision.value == row.revision)
    && (ifMatchEtag.Some? ==> ifMatchEtag.value == row.etag)
  }

  function FoldKey(id: string): string {
    "todo:" + id
  }

  function ChangeOf(todo: Todo, operation: string, now: nat): Change {
    Change(0, "todo", todo.id, operation, "json", TodoRow(todo), FoldKey(todo.id), now)
  }

  /** Stores a row and logs it. */
  function Put(db: TodoDb, todo: Todo, operation: string, now: nat): TodoDb {
    db.(todos := db.todos[todo.id := todo], log := Appended(db.log, ChangeOf(todo, operation, now)))
  }

  // ----- the operations -----

  function NewTodo(req: CreateRequest, id: string, now: nat): Todo {
    var status := req.status.GetOr("inbox");
    Todo(id, Trim(req.title), req.note, status, req.dueDate, req.priority.GetOr(0), req.linkedMemoId, false, 1,
         ETag.Format(1, id), now, now, if status == "completed" then Some(now) else None, None)
  }

  function Create(db: TodoDb, req: CreateRequest, freshId: string, now: nat): (TodoDb, Result<Todo>) {
    var id := req.id.GetOr(freshId);
    if Trim(req.title) == "" then (db, Err(InvalidArgument))
    else if !ValidFields(req.status.GetOr("inbox"), req.priority.GetOr(0)) then (db, Err(InvalidArgument))
    else if !LinkExists(db, req.linkedMemoId) then (db, Err(NotFound))
    else if id in db.todos then (db, Ok(db.todos[id]))
    else (Put(db, NewTodo(req, id, now), "upsert", now), Ok(NewTodo(req, id, now)))
  }

  function Edited(row: Todo, req: UpdateRequest, now: nat): Todo {
    var status := req.status.GetOr(row.status);
    row.(title := Trim(req.title.GetOr(row.title)), note := req.note.GetOr(row.note), status := status,
         dueDate := req.dueDate.GetOr(row.dueDate), priority := req.priority.GetOr(row.priority),
         linkedMemoId := req.linkedMemoId.GetOr(row.linkedMemoId), revision := row.revision + 1,
         etag := ETag.Format(row.revision + 1, row.id), updatedAt := now,
         completedAt := if status == "completed" then Some(row.completedAt.GetOr(now)) else None)
  }

  function Update(db: TodoDb, id: string, req: UpdateRequest, now: nat): (TodoDb, Result<Todo>) {
    if id !in db.todos || db.todos[id].isDeleted then (db, Err(NotFound))
    else
      var row := db.todos[id];
      if !Current(row, req.baseRevision, req.ifMatchEtag) then (db, Err(Conflict))
      else if Trim(req.title.GetOr(row.title)) == "" then (db, Err(InvalidArgument))
      else if !ValidFields(req.status.GetOr(row.status), req.priority.GetOr(row.priority)) then (db, Err(InvalidArgument))
      else if !LinkExists(db, req.linkedMemoId.GetOr(row.linkedMemoId)) then (db, Err(NotFound))
      else (Put(db, Edited(row, req, now), "upsert", now), Ok(Edited(row, req, now)))
  }

  function Trashed(row: Todo, now: nat): Todo {
    row.(isDeleted := true, deletedAt := Some(now), updatedAt := now, revision := row.revision + 1,
         etag := ETag.Format(row.revision + 1, row.id))
  }

  function Delete(db: TodoDb, id: string, baseRevision: Option<int>, ifMatchEtag: Option<string>, permanent: bool, now: nat)
    : (TodoDb, Result<()>)
  {
    if id !in db.todos || (!permanent && db.todos[id].isDeleted) then (db, Err(NotFound))
    else
      var row := db.todos[id];
      if !Current(row, baseRevision, ifMatchEtag) then (db, Err(Conflict))
      else if permanent then
        if !row.isDeleted then (db, Err(InvalidArgument))
        else (db.(todos := db.todos - {id}, log := Appended(db.log, ChangeOf(row, "delete", now))), Ok(()))
      else (Put(db, Trashed(row, now), "delete", now), Ok(()))
  }

  function Untrashed(row: Todo, now: nat): Todo {
    row.(isDeleted := false, deletedAt := None, updatedAt := now, revision := row.revision + 1,
         etag := ETag.Format(row.revision + 1, row.id))
  }

  function Restore(db: TodoDb, id: string, baseRevision: Option<int>, ifMatchEtag: Option<string>, now: nat)
    : (TodoDb, Result<Todo>)
  {
    if id !in db.todos then (db, Err(NotFound))
    else
      var row := db.todos[id];
      if !row.isDeleted then (db, Err(InvalidArgument))
      else if !Current(row, baseRevision, ifMatchEtag) then (db, Err(Conflict))
      else (Put(db, Untrashed(row, now), "upsert", now), Ok(Untrashed(row, now)))
  }

  /** `ON DELETE SET NULL` of a hard-deleted memo; no change is logged for the todos. */
  function Unlink(todos: map<string, Todo>, memo: string): map<string, Todo> {
    map id | id in todos :: if todos[id].linkedMemoId == Some(memo) then todos[id].(linkedMemoId := None) else todos[id]
  }

  // ----- the repository -----

  class TodoRepo {
    var todos: map<string, Todo>
    var memos: set<string>
    const sync: SyncRepo

    ghost function State(): TodoDb
      reads this, sync
    {
      TodoDb(todos, memos, sync.State())
    }

    constructor (sync: SyncRepo, memos: set<string>)
      ensures this.sync == sync && State() == TodoDb(map[], memos, sync.State())
    {
      todos, this.memos, this.sync := map[], memos, sync;
    }

    method Append(todo: Todo, operation: string, now: nat)
      requires ValidLog(sync.State()) && sync.lastId + 1 < I63
      modifies sync
      ensures sync.State() == Appended(old(sync.State()), ChangeOf(todo, operation, now)) && ValidLog(sync.State())
    {
      var _ := sync.Append("todo", todo.id, operation, "json", TodoRow(todo), "todo:" + todo.id, now);
    }

    method CreateTodo(req: CreateRequest, freshId: string, now: nat) returns (r: Result<Todo>)
      requires ValidLog(sync.State()) && sync.lastId + 1 < I63
      modifies this`todos, sync
      ensures (State(), r) == Create(old(State()), req, freshId, now) && ValidLog(sync.State())
    {
      if Trim(req.title) == "" {
        return Err(InvalidArgument);
      }
      var status := match req.status case Some(s) => s case None => "inbox";
      var priority := match req.priority case Some(p) => p case None => 0;
      if !ValidFields(status, priority) {
        return Err(InvalidArgument);
      }
      if req.linkedMemoId.Some? && req.linkedMemoId.value !in memos {
        return Err(NotFound);
      }
      var id := match req.id case Some(i) => i case None => freshId;
      var completed := if status == "completed" then Some(now) else None;
      if id in todos {
        return Ok(todos[id]);
      }
      var todo := Todo(id, Trim(req.title), req.note, status, req.dueDate, priority, req.linkedMemoId, false, 1,
                       ETag.Format(1, id), now, now, completed, None);
      todos := todos[id := todo];
      Append(todo, "upsert", now);
      r := Ok(todo);
    }

    method UpdateTodo(id: string, req: UpdateRequest, now: nat) returns (r: Result<Todo>)
      requires ValidLog(sync.State()) && sync.lastId + 1 < I63
      requires forall i :: i in todos ==> todos[i].id == i
      modifies this`todos, sync
      ensures (State(), r) == Update(old(State()), id, req, now) && ValidLog(sync.State())
    {
      if id !in todos || todos[id].isDeleted {
        return Err(NotFound);
      }
      var row := todos[id];
      if req.baseRevision.Some? && req.baseRevision.value != row.revision {
        return Err(Conflict);
      }
      if req.ifMatchEtag.Some? && req.ifMatchEtag.value != row.etag {
        return Err(Conflict);
      }
      var title := req.title.GetOr(row.title);
      if Trim(title) == "" {
        return Err(InvalidArgument);
      }
      var status := req.status.GetOr(row.status);
      var priority := req.priority.GetOr(row.priority);
      if !ValidFields(status, priority) {
        return Err(InvalidArgument);
      }
      var due := req.dueDate.GetOr(row.dueDate);
      var linked := req.linkedMemoId.GetOr(row.linkedMemoId);
      if linked.Some? && linked.value !in memos {
        return Err(NotFound);
      }
      var revision := row.revision + 1;
      var completed :=
        if status == "completed" then (if row.completedAt.Some? then row.completedAt else Some(now)) else None;
      var todo := row.(title := Trim(title), note := req.note.GetOr(row.note), status := status, dueDate := due,
                       priority := priority, linkedMemoId := linked, revision := revision,
                       etag := ETag.Format(revision, id), updatedAt := now, completedAt := completed);
      todos := todos[id := todo];
      Append(todo, "upsert", now);
      r := Ok(todo);
    }

    method DeleteTodo(id: string, baseRevision: Option<int>, ifMatchEtag: Option<string>, permanent: bool, now: nat)
      returns (r: Result<()>)
      requires ValidLog(sync.State()) && sync.lastId + 1 < I63
      requires forall i :: i in todos ==> todos[i].id == i
      modifies this`todos, sync
      ensures (State(), r) == Delete(old(State()), id, baseRevision, ifMatchEtag, permanent, now) && ValidLog(sync.State())
    {
      if id !in todos || (!permanent && todos[id].isDeleted) {
        return Err(NotFound);
      }
      var row := todos[id];
      if baseRevision.Some? && baseRevision.value != row.revision {
        return Err(Conflict);
      }
      if ifMatchEtag.Some? && ifMatchEtag.value != row.etag {
        return Err(Conflict);
      }
      if permanent {
        if !row.isDeleted {
          return Err(InvalidArgument);
        }
        todos := todos - {id};
        Append(row, "delete", now);
        return Ok(());
      }
      var tombstone := row.(isDeleted := true, deletedAt := Some(now), updatedAt := now, revision := row.revision + 1,
                            etag := ETag.Format(row.revision + 1, id));
      todos := todos[id := tombstone];
      Append(tombstone, "delete", now);
      r := Ok(());
    }

    method RestoreTodo(id: string, baseRevision: Option<int>, ifMatchEtag: Option<string>, now: nat)
      returns (r: Result<Todo>)
      requires ValidLog(sync.State()) && sync.lastId + 1 < I63
      requires forall i :: i in todos ==> todos[i].id == i
      modifies this`todos, sync
      ensures (State(), r) == Restore(old(State()), id, baseRevision, ifMatchEtag, now) && ValidLog(sync.State())
    {
      if id !in todos {
        return Err(NotFound);
      }
      var row := todos[id];
      if !row.isDeleted {
        return Err(InvalidArgument);
      }
      if baseRevision.Some? && baseRevision.value != row.revision {
        return Err(Conflict);
      }
      if ifMatchEtag.Some? && ifMatchEtag.value != row.etag {
        return Err(Conflict);
      }
      var todo := row.(isDeleted := false, deletedAt := None, updatedAt := now, revision := row.revision + 1,
                       etag := ETag.Format(row.revision + 1, id));
      todos := todos[id := todo];
      Append(todo, "upsert", now);
      r := Ok(todo);
    }
  }
}
