/** What each kind of pushed item does to the tables, and for which device it is remembered. */
module PushLaws {
  import opened Domain
  import opened Text
  import opened Records
  import opened SyncLog
  import opened Push
  import PushRuns
  import Memos
  import MemoLaws
  import Todos
  import TodoLaws

  /** A failed item: the code, the memo it was about, and the item's own id. */
  predicate Fails(item: PushItem, r: Result<PushResult>, code: ErrorCode, memoId: Option<string>) {
    r == Ok(PushResult(item.clientOpId, false, Some(code), None, memoId, None))
  }

  /** A device that names itself is that device; otherwise it is the session's, or "legacy". */
  lemma DeviceIs(req: Request)
    ensures !Blank(req.deviceId) ==> DeviceOf(req) == req.deviceId
    ensures Blank(req.deviceId) ==> DeviceOf(req) == if req.sessionDevice.Some? then req.sessionDevice.value else "legacy"
  {
    var _, _ := TrimIs(req.deviceId);
  }

  /** A batch is refused as a whole exactly when it has too many items; otherwise its answers are those of its items, in
      order. */
  lemma BatchLimit<S(!new)>(run: Runner<S>, limit: nat, s: Session<S>, req: Request)
    requires PushRuns.Echoes(run)
    ensures |req.items| > limit ==> PushBatch(run, limit, s, req) == (s, Err(InvalidArgument))
    ensures |req.items| <= limit ==> PushBatch(run, limit, s, req) == HandleAll(run, s, DeviceOf(req), req.items)
    ensures var r := PushBatch(run, limit, s, req).1;
            PushRuns.Recorded(s) && r.Ok? ==>
              |r.value| == |req.items| <= limit
              && forall i :: 0 <= i < |r.value| ==> r.value[i].clientOpId == req.items[i].item.clientOpId
  {
    if |req.items| <= limit && PushRuns.Recorded(s) {
      AnswersInOrder(run, s, DeviceOf(req), req.items);
    }
  }

  lemma {:induction false} AnswersInOrder<S(!new)>(run: Runner<S>, s: Session<S>, device: string, items: seq<Arrival>)
    requires PushRuns.Echoes(run) && PushRuns.Recorded(s)
    ensures var r := HandleAll(run, s, device, items).1;
            r.Ok? ==> |r.value| == |items| && forall i :: 0 <= i < |items| ==> r.value[i].clientOpId == items[i].item.clientOpId
  {
    if items == [] {
    } else {
      AnswersInOrder(run, s, device, items[..|items| - 1]);
      PushRuns.HandleAllRecords(run, s, device, items[..|items| - 1]);
      PushRuns.HandleRecords(run, HandleAll(run, s, device, items[..|items| - 1]).0, device, items[|items| - 1]);
    }
  }

  /** A created memo goes to the notebook named, or to the inbox, with the item's title and body and without tags. */
  lemma MemoCreateItem(env: Memos.Env, user: string, db: ServerDb, a: Arrival)
    requires a.item.op == "memo.create"
    ensures var (after, r) := RunItem(env, user, db, a);
            var named := a.item.notebookId.Some? && a.item.notebookId.value != "";
            && (!named && db.inbox.None? ==> (after, r) == (db, Err(NotFound)))
            && (named || db.inbox.Some? ==>
                  var notebook := if named then a.item.notebookId.value else db.inbox.value;
                  var markdown := if a.item.markdown.Some? then a.item.markdown.value else "";
                  && (notebook !in db.memo.notebooks ==> after == db && Fails(a.item, r, NotFound, None))
                  && (notebook in db.memo.notebooks ==>
                        && after == db.(memo := Memos.Create(env, db.memo, Memos.NewMemo(notebook, a.item.title, markdown, []),
                                                             a.newMemo, a.now).0)
                        && r == Ok(PushResult(a.item.clientOpId, true, None, None, Some(a.newMemo), None))))
  {
  }

  /** An update is a save of the named memo by the pushing user with the item's fields; no tags means the old ones. */
  lemma MemoUpdateItem(env: Memos.Env, user: string, db: ServerDb, a: Arrival)
    requires a.item.op == "memo.update"
    ensures var (after, r) := RunItem(env, user, db, a);
            && (a.item.memoId.None? || a.item.save.None? ==> after == db && Fails(a.item, r, InvalidArgument, a.item.memoId))
            && (a.item.memoId.Some? && a.item.save.Some? ==>
                  var s := a.item.save.value;
                  var (memo, saved) :=
                    Memos.Save(env, db.memo,
                               Memos.SaveRequest(user, a.item.memoId.value, s.ifMatchEtag, s.baseRevision, s.baseHash, s.leaseId,
                                                 s.key, s.body, s.title, if s.tags == [] then None else Some(s.tags),
                                                 s.isPinned, s.isArchived, s.notebookId),
                               a.newSnapshot, a.now);
                  && after == db.(memo := memo)
                  && (saved.Err? ==> Fails(a.item, r, saved.code, a.item.memoId))
                  && (saved.Ok? ==>
                        r == Ok(PushResult(a.item.clientOpId, true, None, Some(saved.value), a.item.memoId, None))))
  {
  }

  /** A delete trashes the memo; it never purges one. */
  lemma MemoDeleteItem(env: Memos.Env, user: string, db: ServerDb, a: Arrival)
    requires a.item.op == "memo.delete"
    ensures var (after, r) := RunItem(env, user, db, a);
            && (a.item.memoId.None? ==> after == db && Fails(a.item, r, InvalidArgument, None))
            && (a.item.memoId.Some? ==>
                  var id := a.item.memoId.value;
                  && MemoLaws.OnlyRows(db.memo, after.memo) && after.todos == db.todos && after.inbox == db.inbox
                  && after.memo.memos ==
                     (if id in db.memo.memos then
                        db.memo.memos[id := db.memo.memos[id].(isDeleted := true, deletedAt := Some(a.now), updatedAt := a.now)]
                      else db.memo.memos)
                  && r == Ok(PushResult(a.item.clientOpId, true, None, None, Some(id), None)))
  {
  }

  predicate IsTodo(op: string) {
    op in ["todo.create", "todo.update", "todo.complete", "todo.restore", "todo.delete"]
  }

  /** A todo item without its payload ends the push; an operation nobody knows fails alone. */
  lemma RejectedItem(env: Memos.Env, user: string, db: ServerDb, a: Arrival)
    ensures var (after, r) := RunItem(env, user, db, a);
            && (IsTodo(a.item.op) && (a.item.todo.None? || a.item.todo.value.todo.None?) ==> (after, r) == (db, Err(InvalidArgument)))
            && (!IsTodo(a.item.op) && a.item.op !in ["memo.create", "memo.update", "memo.delete"] ==>
                  after == db && Fails(a.item, r, InvalidArgument, None))
  {
  }

  /** The tables a todo operation leaves, and its answer with this todo. */
  predicate TodoDone(db: ServerDb, a: Arrival, after: ServerDb, r: Result<PushResult>, t: Todos.TodoDb, done: bool,
                     code: ErrorCode, todo: Todo)
  {
    && after == db.(todos := t.todos, memo := db.memo.(log := t.log))
    && (done ==> r == Ok(PushResult(a.item.clientOpId, true, None, None, None, Some(todo))))
    && (!done ==> Fails(a.item, r, code, None))
  }

  function Signed(base: Option<u64>): Option<int> {
    match base
    case None => None
    case Some(v) => Some(if v < 0x8000_0000_0000_0000 then v else v - 0x1_0000_0000_0000_0000)
  }

  /** The four todo operations reach the repository with the payload's fields; a delete trashes and never purges. */
  lemma TodoItem(env: Memos.Env, user: string, db: ServerDb, a: Arrival)
    requires IsTodo(a.item.op) && a.item.todo.Some? && a.item.todo.value.todo.Some?
    ensures var (after, r) := RunItem(env, user, db, a);
            var t, push := a.item.todo.value.todo.value, a.item.todo.value;
            var tables := Todos.TodoDb(db.todos, db.memo.memos.Keys, db.memo.log);
            && (a.item.op == "todo.create" ==>
                  var (d, made) :=
                    Todos.Create(tables, Todos.CreateRequest(Some(t.id), t.title, t.note, Some(t.status), t.dueDate,
                                                             Some(t.priority), t.linkedMemoId), "", a.now);
                  TodoDone(db, a, after, r, d, made.Ok?, if made.Err? then made.code else Internal, if made.Ok? then made.value else t))
            && (a.item.op == "todo.update" || a.item.op == "todo.complete" ==>
                  var (d, made) :=
                    Todos.Update(tables, t.id,
                                 Todos.UpdateRequest(Some(t.title), Some(t.note), Some(t.status), Some(t.dueDate), Some(t.priority),
                                                     Some(t.linkedMemoId), Signed(push.baseRevision), push.ifMatchEtag), a.now);
                  TodoDone(db, a, after, r, d, made.Ok?, if made.Err? then made.code else Internal, if made.Ok? then made.value else t))
            && (a.item.op == "todo.restore" ==>
                  var (d, made) := Todos.Restore(tables, t.id, Signed(push.baseRevision), push.ifMatchEtag, a.now);
                  TodoDone(db, a, after, r, d, made.Ok?, if made.Err? then made.code else Internal, if made.Ok? then made.value else t))
            && (a.item.op == "todo.delete" ==>
                  var (d, made) := Todos.Delete(tables, t.id, Signed(push.baseRevision), push.ifMatchEtag, false, a.now);
                  && TodoDone(db, a, after, r, d, made.Ok?, if made.Err? then made.code else Internal, t)
                  && (r.Ok? && r.value.ok ==> t.id in db.todos && !db.todos[t.id].isDeleted))
  {
  }
}
