/** Runs of the todo repository: the lifecycle of every row and the convergence of replicas. */
module TodoRuns {
  import opened Domain
  import opened Text
  import ETag
  import opened Records
  import opened SyncLog
  import opened Todos
  import SyncRuns

  // ----- the machine -----

  /** The operations of the repository, and what other parts of the server do to the tables it shares; other workspaces
      take log ids. */
  datatype Op =
    | CreateOp(create: CreateRequest, freshId: string)
    | UpdateOp(id: string, update: UpdateRequest)
    | DeleteOp(id: string, baseRevision: Option<int>, ifMatchEtag: Option<string>, permanent: bool)
    | RestoreOp(id: string, baseRevision: Option<int>, ifMatchEtag: Option<string>)
    | MemoAdded(memo: string)
    | MemoPurged(memo: string)
    | OtherWrite(change: Change)
    | WriteElsewhere

  predicate Enabled(db: TodoDb, op: Op) {
    && db.log.lastId + 1 < I63
    && (op.OtherWrite? ==> !("todo:" <= op.change.foldKey))
  }

  predicate Foreign(op: Op) {
    op.MemoAdded? || op.MemoPurged? || op.OtherWrite? || op.WriteElsewhere?
  }

  function ApplyForeign(db: TodoDb, op: Op): TodoDb
    requires Foreign(op)
  {
    match op
    case MemoAdded(memo) => db.(memos := db.memos + {memo})
    case MemoPurged(memo) => db.(todos := Unlink(db.todos, memo), memos := db.memos - {memo})
    case OtherWrite(change) => db.(log := Appended(db.log, change))
    case WriteElsewhere => db.(log := db.log.(lastId := db.log.lastId + 1))
  }

  function Apply(db: TodoDb, op: Op, now: nat): TodoDb {
    if !Enabled(db, op) then db
    else
      match op
      case CreateOp(req, freshId) => Create(db, req, freshId, now).0
      case UpdateOp(id, req) => Update(db, id, req, now).0
      case DeleteOp(id, rev, etag, permanent) => Delete(db, id, rev, etag, permanent, now).0
      case RestoreOp(id, rev, etag) => Restore(db, id, rev, etag, now).0
      case _ => ApplyForeign(db, op)
  }

  function Run(db: TodoDb, ops: seq<(Op, nat)>): TodoDb {
    if ops == [] then db else Apply(Run(db, ops[..|ops| - 1]), ops[|ops| - 1].0, ops[|ops| - 1].1)
  }

  /** A workspace without todos, whose log mentions none. */
  predicate Fresh(db: TodoDb) {
    && db.todos == map[]
    && ValidLog(db.log)
    && forall i :: 0 <= i < |db.log.rows| ==> !("todo:" <= db.log.rows[i].foldKey)
  }

  // ----- the lifecycle -----

  predicate TodoOk(t: Todo) {
    && t.revision >= 1
    && t.etag == ETag.Format(t.revision, t.id)
    && ValidFields(t.status, t.priority)
    && Trim(t.title) == t.title != ""
    && (t.completedAt.Some? <==> t.status == "completed")
    && (t.deletedAt.Some? <==> t.isDeleted)
  }

  predicate TableOk(db: TodoDb) {
    forall id :: id in db.todos ==> db.todos[id].id == id && TodoOk(db.todos[id])
  }

  lemma NewRowOk(create: CreateRequest, id: string, now: nat)
    requires Trim(create.title) != "" && ValidFields(create.status.GetOr("inbox"), create.priority.GetOr(0))
    ensures TodoOk(NewTodo(create, id, now)) && NewTodo(create, id, now).id == id
  {
    TrimTwice(create.title);
  }

  lemma EditedRowOk(row: Todo, update: UpdateRequest, now: nat)
    requires TodoOk(row) && Trim(update.title.GetOr(row.title)) != ""
    requires ValidFields(update.status.GetOr(row.status), update.priority.GetOr(row.priority))
    ensures TodoOk(Edited(row, update, now)) && Edited(row, update, now).id == row.id
  {
    TrimTwice(update.title.GetOr(row.title));
  }

  /** What one step may do to the row with this id. */
  predicate StepsTo(before: TodoDb, after: TodoDb, id: string) {
    if id in before.todos && id in after.todos then
      var s, t := before.todos[id], after.todos[id];
      || t == s
      || t == s.(linkedMemoId := None)
      || (t.revision == s.revision + 1 && t.createdAt == s.createdAt)
    else if id in before.todos then before.todos[id].isDeleted
    else id in after.todos ==> after.todos[id].revision == 1 && !after.todos[id].isDeleted
  }

  lemma PutTable(db: TodoDb, t: Todo, operation: string, now: nat)
    requires TableOk(db) && TodoOk(t)
    ensures TableOk(Put(db, t, operation, now))
  {
  }

  lemma PutRow(before: TodoDb, after: TodoDb, t: Todo, id: string)
    requires after.todos == before.todos[t.id := t]
    requires if t.id in before.todos then
               t.revision == before.todos[t.id].revision + 1 && t.createdAt == before.todos[t.id].createdAt
             else t.revision == 1 && !t.isDeleted
    ensures StepsTo(before, after, id)
  {
  }

  lemma PutLog(db: TodoDb, t: Todo, operation: string, now: nat)
    requires ValidLog(db.log) && db.log.lastId + 1 < I63
    ensures ValidLog(Put(db, t, operation, now).log)
  {
  }

  lemma PutStep(db: TodoDb, t: Todo, operation: string, now: nat, id: string)
    requires TableOk(db) && ValidLog(db.log) && db.log.lastId + 1 < I63 && TodoOk(t)
    requires if t.id in db.todos then t.revision == db.todos[t.id].revision + 1 && t.createdAt == db.todos[t.id].createdAt
             else t.revision == 1 && !t.isDeleted
    ensures var after := Put(db, t, operation, now); TableOk(after) && ValidLog(after.log) && StepsTo(db, after, id)
  {
    PutTable(db, t, operation, now);
    PutLog(db, t, operation, now);
    PutRow(db, Put(db, t, operation, now), t, id);
  }

  lemma CreateStep(db: TodoDb, req: CreateRequest, freshId: string, now: nat, id: string)
    requires TableOk(db) && ValidLog(db.log) && db.log.lastId + 1 < I63
    ensures var after := Create(db, req, freshId, now).0; TableOk(after) && ValidLog(after.log) && StepsTo(db, after, id)
  {
    var i := req.id.GetOr(freshId);
    if Trim(req.title) != "" && ValidFields(req.status.GetOr("inbox"), req.priority.GetOr(0)) && i !in db.todos {
      NewRowOk(req, i, now);
      PutStep(db, NewTodo(req, i, now), "upsert", now, id);
    }
  }

  lemma UpdateStep(db: TodoDb, i: string, req: UpdateRequest, now: nat, id: string)
    requires TableOk(db) && ValidLog(db.log) && db.log.lastId + 1 < I63
    ensures var after := Update(db, i, req, now).0; TableOk(after) && ValidLog(after.log) && StepsTo(db, after, id)
  {
    if Update(db, i, req, now).1.Ok? {
      EditedRowOk(db.todos[i], req, now);
      PutStep(db, Edited(db.todos[i], req, now), "upsert", now, id);
    }
  }

  lemma DeleteStep(db: TodoDb, i: string, rev: Option<int>, etag: Option<string>, permanent: bool, now: nat, id: string)
    requires TableOk(db) && ValidLog(db.log) && db.log.lastId + 1 < I63
    ensures var after := Delete(db, i, rev, etag, permanent, now).0;
            TableOk(after) && ValidLog(after.log) && StepsTo(db, after, id)
  {
    if Delete(db, i, rev, etag, permanent, now).1.Ok? && !permanent {
      PutStep(db, Trashed(db.todos[i], now), "delete", now, id);
    }
  }

  lemma RestoreStep(db: TodoDb, i: string, rev: Option<int>, etag: Option<string>, now: nat, id: string)
    requires TableOk(db) && ValidLog(db.log) && db.log.lastId + 1 < I63
    ensures var after := Restore(db, i, rev, etag, now).0; TableOk(after) && ValidLog(after.log) && StepsTo(db, after, id)
  {
    if Restore(db, i, rev, etag, now).1.Ok? {
      PutStep(db, Untrashed(db.todos[i], now), "upsert", now, id);
    }
  }

  /** An update, delete or restore that does something raises the revision of its row by exactly one, or purges it from the
      trash. */
  predicate Raises(before: TodoDb, op: Op, after: TodoDb) {
    (op.UpdateOp? || op.DeleteOp? || op.RestoreOp?) && after != before ==>
      op.id in before.todos
      && if op.DeleteOp? && op.permanent then before.todos[op.id].isDeleted && op.id !in after.todos
         else op.id in after.todos && after.todos[op.id].revision == before.todos[op.id].revision + 1
              && after.todos[op.id].isDeleted == op.DeleteOp?
  }

  lemma RaisesStep(db: TodoDb, op: Op, now: nat)
    requires TableOk(db)
    ensures Raises(db, op, Apply(db, op, now))
  {
    match op
    case UpdateOp(id, req) => assert Apply(db, op, now) != db ==> Apply(db, op, now) == Update(db, id, req, now).0;
    case _ =>
  }

  lemma EditStep(db: TodoDb, op: Op, now: nat, id: string)
    requires TableOk(db) && ValidLog(db.log) && Enabled(db, op) && (op.CreateOp? || op.UpdateOp?)
    ensures TableOk(Apply(db, op, now)) && ValidLog(Apply(db, op, now).log) && StepsTo(db, Apply(db, op, now), id)
  {
    match op
    case CreateOp(req, freshId) => CreateStep(db, req, freshId, now, id);
    case UpdateOp(i, req) => UpdateStep(db, i, req, now, id);
  }

  lemma TrashStep(db: TodoDb, op: Op, now: nat, id: string)
    requires TableOk(db) && ValidLog(db.log) && Enabled(db, op) && (op.DeleteOp? || op.RestoreOp?)
    ensures TableOk(Apply(db, op, now)) && ValidLog(Apply(db, op, now).log) && StepsTo(db, Apply(db, op, now), id)
  {
    match op
    case DeleteOp(i, rev, etag, permanent) => DeleteStep(db, i, rev, etag, permanent, now, id);
    case RestoreOp(i, rev, etag) => RestoreStep(db, i, rev, etag, now, id);
  }

  /** What a purged memo does to one todo. */
  lemma UnlinkRow(todos: map<string, Todo>, memo: string, id: string)
    requires id in todos
    ensures Unlink(todos, memo)[id] == todos[id] || Unlink(todos, memo)[id] == todos[id].(linkedMemoId := None)
  {
  }

  lemma PurgedStep(db: TodoDb, after: TodoDb, memo: string, id: string)
    requires TableOk(db) && after.todos == Unlink(db.todos, memo)
    ensures TableOk(after) && StepsTo(db, after, id)
  {
    if id in db.todos {
      UnlinkRow(db.todos, memo, id);
    }
    assert TableOk(after) by {
      forall i: string ensures i in after.todos ==> after.todos[i].id == i && TodoOk(after.todos[i]) {
        if i in after.todos {
          UnlinkRow(db.todos, memo, i);
        }
      }
    }
  }

  lemma SameTodosStep(db: TodoDb, after: TodoDb, id: string)
    requires TableOk(db) && after.todos == db.todos
    ensures TableOk(after) && StepsTo(db, after, id)
  {
  }

  lemma ForeignStep(db: TodoDb, op: Op, id: string)
    requires TableOk(db) && ValidLog(db.log) && Enabled(db, op) && Foreign(op)
    ensures TableOk(ApplyForeign(db, op)) && ValidLog(ApplyForeign(db, op).log) && StepsTo(db, ApplyForeign(db, op), id)
  {
    if op.MemoPurged? {
      PurgedStep(db, ApplyForeign(db, op), op.memo, id);
    } else {
      SameTodosStep(db, ApplyForeign(db, op), id);
    }
  }

  /** Every reachable row is well formed; each update, trash or restore raises its revision by one, rows start at
      revision 1 and only trashed rows are purged. */
  lemma LifecycleStep(db: TodoDb, op: Op, now: nat, id: string)
    requires TableOk(db) && ValidLog(db.log)
    ensures TableOk(Apply(db, op, now)) && ValidLog(Apply(db, op, now).log)
    ensures StepsTo(db, Apply(db, op, now), id) && Raises(db, op, Apply(db, op, now))
  {
    RaisesStep(db, op, now);
    if Enabled(db, op) {
      if op.CreateOp? || op.UpdateOp? {
        EditStep(db, op, now, id);
      } else if op.DeleteOp? || op.RestoreOp? {
        TrashStep(db, op, now, id);
      } else {
        ForeignStep(db, op, id);
      }
    }
  }

  lemma {:induction false} LifecycleRun(db: TodoDb, ops: seq<(Op, nat)>)
    requires Fresh(db)
    ensures TableOk(Run(db, ops)) && ValidLog(Run(db, ops).log)
  {
    if ops == [] {
    } else {
      LifecycleRun(db, ops[..|ops| - 1]);
      LifecycleStep(Run(db, ops[..|ops| - 1]), ops[|ops| - 1].0, ops[|ops| - 1].1, "");
    }
  }

  /** An etag of an older revision is refused by every versioned operation, so no update is lost. */
  lemma StaleEtagRefused(db: TodoDb, id: string, stale: string, revision: nat, req: UpdateRequest, permanent: bool, now: nat)
    requires TableOk(db) && id in db.todos && revision < db.todos[id].revision
    requires stale == ETag.Format(revision, id) && req.ifMatchEtag == Some(stale)
    ensures Update(db, id, req, now).0 == db && Update(db, id, req, now).1.Err?
    ensures Delete(db, id, None, Some(stale), permanent, now).0 == db && Delete(db, id, None, Some(stale), permanent, now).1.Err?
    ensures Restore(db, id, None, Some(stale), now).0 == db && Restore(db, id, None, Some(stale), now).1.Err?
  {
    if stale == db.todos[id].etag {
      ETag.FormatInjective(revision, id, db.todos[id].revision, id);
    }
  }

  // ----- convergence -----

  /** A row but for the link, which a hard memo delete clears without a change. */
  function Unlinked(t: Todo): Todo {
    t.(linkedMemoId := None)
  }

  /** The last change a replica has for the todo is one that says `operation` about a row like `t`. */
  predicate Shows(view: View, id: string, operation: string, t: Todo) {
    var key := "todo:" + id;
    key in view && view[key].operation == operation && view[key].payload.TodoRow? && Unlinked(view[key].payload.todo) == Unlinked(t)
  }

  predicate ShowsLive(view: View, id: string) {
    "todo:" + id in view && view["todo:" + id].operation == "upsert"
  }

  predicate ConvergedAt(view: View, todos: map<string, Todo>, id: string) {
    if id in todos then Shows(view, id, if todos[id].isDeleted then "delete" else "upsert", todos[id])
    else !ShowsLive(view, id)
  }

  /** The replica's live todos are the table's live rows, field by field except the link. */
  ghost predicate Converged(view: View, todos: map<string, Todo>) {
    forall id :: ConvergedAt(view, todos, id)
  }

  lemma FoldKeyInjective(a: string, b: string)
    ensures FoldKey(a) == FoldKey(b) <==> a == b
    ensures "todo:" <= FoldKey(a)
  {
    assert FoldKey(a)[5..] == a && FoldKey(b)[5..] == b;
  }

  lemma ReplayLast(log: Log, c: Change)
    ensures Replay(map[], Appended(log, c).rows) == Replay(map[], log.rows)[c.foldKey := c.(id := log.lastId + 1)]
  {
    assert Appended(log, c).rows[..|log.rows|] == log.rows;
  }

  /** A change about one todo leaves the others converged. */
  lemma OneRowChanges(view: View, todos: map<string, Todo>, c: Change, todos': map<string, Todo>, id: string)
    requires Converged(view, todos) && c.foldKey == FoldKey(id) && ConvergedAt(view[c.foldKey := c], todos', id)
    requires forall x :: x != id ==> (x in todos <==> x in todos') && (x in todos ==> todos'[x] == todos[x])
    ensures Converged(view[c.foldKey := c], todos')
  {
    var view' := view[c.foldKey := c];
    forall x ensures ConvergedAt(view', todos', x) {
      FoldKeyInjective(x, id);
      assert ConvergedAt(view, todos, x);
    }
  }

  /** Storing a row and logging it as stored keeps replicas converged. */
  lemma PutConverges(db: TodoDb, t: Todo, operation: string, now: nat)
    requires Converged(Replay(map[], db.log.rows), db.todos) && operation == if t.isDeleted then "delete" else "upsert"
    ensures var after := Put(db, t, operation, now); Converged(Replay(map[], after.log.rows), after.todos)
  {
    var c := ChangeOf(t, operation, now);
    ReplayLast(db.log, c);
    OneRowChanges(Replay(map[], db.log.rows), db.todos, c.(id := db.log.lastId + 1), db.todos[t.id := t], t.id);
  }

  lemma PurgeConverges(db: TodoDb, id: string, now: nat)
    requires Converged(Replay(map[], db.log.rows), db.todos) && id in db.todos && db.todos[id].id == id
    ensures Converged(Replay(map[], Appended(db.log, ChangeOf(db.todos[id], "delete", now)).rows), db.todos - {id})
  {
    var c := ChangeOf(db.todos[id], "delete", now);
    ReplayLast(db.log, c);
    OneRowChanges(Replay(map[], db.log.rows), db.todos, c.(id := db.log.lastId + 1), db.todos - {id}, id);
  }

  lemma OtherKeyChanges(view: View, todos: map<string, Todo>, c: Change)
    requires Converged(view, todos) && !("todo:" <= c.foldKey)
    ensures Converged(view[c.foldKey := c], todos)
  {
    var view' := view[c.foldKey := c];
    forall x ensures ConvergedAt(view', todos, x) {
      FoldKeyInjective(x, x);
      assert ConvergedAt(view, todos, x);
    }
  }

  lemma OtherConverges(db: TodoDb, c: Change)
    requires Converged(Replay(map[], db.log.rows), db.todos) && !("todo:" <= c.foldKey)
    ensures Converged(Replay(map[], Appended(db.log, c).rows), db.todos)
  {
    ReplayLast(db.log, c);
    OtherKeyChanges(Replay(map[], db.log.rows), db.todos, c.(id := db.log.lastId + 1));
  }

  lemma UnlinkConverges(view: View, todos: map<string, Todo>, memo: string)
    requires Converged(view, todos)
    ensures Converged(view, Unlink(todos, memo))
  {
    forall id ensures ConvergedAt(view, Unlink(todos, memo), id) {
      assert ConvergedAt(view, todos, id);
      if id in todos {
        UnlinkRow(todos, memo, id);
      }
    }
  }

  lemma CreateConverges(db: TodoDb, req: CreateRequest, freshId: string, now: nat)
    requires Converged(Replay(map[], db.log.rows), db.todos)
    ensures var after := Create(db, req, freshId, now).0; Converged(Replay(map[], after.log.rows), after.todos)
  {
    if Create(db, req, freshId, now).0 != db {
      PutConverges(db, NewTodo(req, req.id.GetOr(freshId), now), "upsert", now);
    }
  }

  lemma UpdateConverges(db: TodoDb, id: string, req: UpdateRequest, now: nat)
    requires TableOk(db) && Converged(Replay(map[], db.log.rows), db.todos)
    ensures var after := Update(db, id, req, now).0; Converged(Replay(map[], after.log.rows), after.todos)
  {
    if Update(db, id, req, now).0 != db {
      PutConverges(db, Edited(db.todos[id], req, now), "upsert", now);
    }
  }

  lemma RestoreConverges(db: TodoDb, id: string, rev: Option<int>, etag: Option<string>, now: nat)
    requires TableOk(db) && Converged(Replay(map[], db.log.rows), db.todos)
    ensures var after := Restore(db, id, rev, etag, now).0; Converged(Replay(map[], after.log.rows), after.todos)
  {
    if Restore(db, id, rev, etag, now).0 != db {
      PutConverges(db, Untrashed(db.todos[id], now), "upsert", now);
    }
  }

  lemma DeleteConverges(db: TodoDb, id: string, rev: Option<int>, etag: Option<string>, permanent: bool, now: nat)
    requires TableOk(db) && Converged(Replay(map[], db.log.rows), db.todos)
    ensures var after := Delete(db, id, rev, etag, permanent, now).0; Converged(Replay(map[], after.log.rows), after.todos)
  {
    if Delete(db, id, rev, etag, permanent, now).1.Ok? {
      if permanent {
        PurgeConverges(db, id, now);
      } else {
        PutConverges(db, Trashed(db.todos[id], now), "delete", now);
      }
    }
  }

  lemma ForeignConverges(db: TodoDb, op: Op)
    requires Enabled(db, op) && Foreign(op) && Converged(Replay(map[], db.log.rows), db.todos)
    ensures Converged(Replay(map[], ApplyForeign(db, op).log.rows), ApplyForeign(db, op).todos)
  {
    match op
    case MemoPurged(memo) => UnlinkConverges(Replay(map[], db.log.rows), db.todos, memo);
    case OtherWrite(change) => OtherConverges(db, change);
    case MemoAdded(_) =>
    case WriteElsewhere =>
  }

  lemma ConvergedStep(db: TodoDb, op: Op, now: nat)
    requires TableOk(db) && Converged(Replay(map[], db.log.rows), db.todos)
    ensures Converged(Replay(map[], Apply(db, op, now).log.rows), Apply(db, op, now).todos)
  {
    if Enabled(db, op) {
      match op
      case DeleteOp(id, rev, etag, permanent) => DeleteConverges(db, id, rev, etag, permanent, now);
      case CreateOp(req, freshId) => CreateConverges(db, req, freshId, now);
      case UpdateOp(id, req) => UpdateConverges(db, id, req, now);
      case RestoreOp(id, rev, etag) => RestoreConverges(db, id, rev, etag, now);
      case _ => ForeignConverges(db, op);
    }
  }

  lemma {:induction false} NoTodoInLog(rows: seq<Change>, id: string)
    requires forall i :: 0 <= i < |rows| ==> !("todo:" <= rows[i].foldKey)
    ensures !ShowsLive(Replay(map[], rows), id)
  {
    if rows == [] {
    } else {
      NoTodoInLog(rows[..|rows| - 1], id);
      FoldKeyInjective(id, id);
    }
  }

  lemma {:induction false} ConvergedRun(db: TodoDb, ops: seq<(Op, nat)>)
    requires Fresh(db)
    ensures Converged(Replay(map[], Run(db, ops).log.rows), Run(db, ops).todos)
  {
    if ops == [] {
      forall id ensures !ShowsLive(Replay(map[], db.log.rows), id) {
        NoTodoInLog(db.log.rows, id);
      }
    } else {
      var init := ops[..|ops| - 1];
      ConvergedRun(db, init);
      LifecycleRun(db, init);
      ConvergedStep(Run(db, init), ops[|ops| - 1].0, ops[|ops| - 1].1);
    }
  }

  /** In every reachable state before compaction, a client that pulls from 0 to the end, in pages of any size, holds
      exactly the table's live todos. */
  lemma ReplicaConverges(db: TodoDb, ops: seq<(Op, nat)>, limit: int)
    requires Fresh(db)
    ensures var t := Run(db, ops); ValidLog(t.log) && Converged(PullAll(t.log.rows, 0, limit, map[]), t.todos)
  {
    var t := Run(db, ops);
    LifecycleRun(db, ops);
    ConvergedRun(db, ops);
    PagingRefinesReplay(t.log.rows, 0, limit, map[]);
    AllAbove(t.log.rows, 0);
  }

  /** The same for a registered device whose pulls interleave with the writes and with compaction: once its cursor has
      reached the newest change, its replica has converged. */
  lemma InterleavedReplicaConverges(db: TodoDb, ops: seq<(Op, nat)>, s: SyncRuns.Sys, es: seq<SyncRuns.Event>)
    requires Fresh(db) && SyncRuns.Retained(s) && SyncRuns.GentleRun(s, es) && s.since == 0 && s.base == map[]
    requires SyncRuns.Run(s, es).history == Run(db, ops).log.rows
    requires SyncRuns.Run(s, es).client.cursor >= MaxId(Run(db, ops).log.rows)
    ensures Converged(SyncRuns.Run(s, es).client.view, Run(db, ops).todos)
  {
    SyncRuns.WholeHistory(s, es);
    ConvergedRun(db, ops);
  }
}
