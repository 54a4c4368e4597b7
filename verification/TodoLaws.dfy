/** Which requests the todo repository accepts and what they store, said without its own helpers. */
module TodoLaws {
  import opened Domain
  import opened Text
  import ETag
  import opened Records
  import opened SyncLog
  import opened Todos

  /** `title` is `given` without the white space around it. */
  predicate TrimmedFrom(title: string, given: string) {
    title != "" && !IsWhitespace(title[0]) && !IsWhitespace(title[|title| - 1])
    && exists i :: 0 <= i <= |given| - |title| && Around(given, i, title)
  }

  predicate Around(given: string, i: nat, title: string)
    requires i + |title| <= |given|
  {
    given == given[..i] + title + given[i + |title|..] && Blank(given[..i]) && Blank(given[i + |title|..])
  }

  lemma TrimIsTrimmed(given: string)
    ensures Trim(given) == "" <==> Blank(given)
    ensures Trim(given) != "" ==> TrimmedFrom(Trim(given), given)
  {
    var front, back := TrimIs(given);
    if Trim(given) != "" {
      assert given[..|front|] == front && given[|front| + |Trim(given)|..] == back;
      assert Around(given, |front|, Trim(given));
    }
  }

  predicate FieldsOk(title: string, status: string, priority: int) {
    !Blank(title) && (status == "inbox" || status == "open" || status == "completed") && 0 <= priority <= 3
  }

  lemma FieldsIff(title: string, status: string, priority: int)
    ensures FieldsOk(title, status, priority) <==> Trim(title) != "" && ValidFields(status, priority)
  {
    TrimIsTrimmed(title);
  }

  predicate LinkOk(db: TodoDb, link: Option<string>) {
    link.Some? ==> link.value in db.memos
  }

  /** What is given names the row as it is. */
  predicate UpToDate(row: Todo, baseRevision: Option<int>, ifMatchEtag: Option<string>) {
    (baseRevision.Some? ==> baseRevision.value == row.revision) && (ifMatchEtag.Some? ==> ifMatchEtag.value == row.etag)
  }

  predicate LoggedRow(before: Log, after: Log, operation: string, row: Todo, now: nat) {
    && after.rows == before.rows + [Change(before.lastId + 1, "todo", row.id, operation, "json", TodoRow(row), "todo:" + row.id, now)]
    && after.lastId == before.lastId + 1 && after.devices == before.devices && after.epochRow == before.epochRow
  }

  /** Exactly this row is stored, and the change carries it. */
  predicate StoredRow(db: TodoDb, after: TodoDb, operation: string, row: Todo, now: nat) {
    after.todos == db.todos[row.id := row] && after.memos == db.memos && LoggedRow(db.log, after.log, operation, row, now)
  }

  // ----- create -----

  lemma CreateIff(db: TodoDb, req: CreateRequest, freshId: string, now: nat)
    ensures var (after, r) := Create(db, req, freshId, now);
            var status := if req.status.Some? then req.status.value else "inbox";
            var priority := if req.priority.Some? then req.priority.value else 0;
            && (r.Ok? <==> FieldsOk(req.title, status, priority) && LinkOk(db, req.linkedMemoId))
            && (r.Err? ==> after == db && r.code == if FieldsOk(req.title, status, priority) then NotFound else InvalidArgument)
  {
    TrimIsTrimmed(req.title);
  }

  /** A new todo has the fields asked for; an id that is taken answers with its row and changes nothing. */
  lemma CreateStores(db: TodoDb, req: CreateRequest, freshId: string, now: nat)
    requires Create(db, req, freshId, now).1.Ok?
    ensures var (after, r) := Create(db, req, freshId, now);
            var id := if req.id.Some? then req.id.value else freshId;
            && (id in db.todos ==> after == db && r.value == db.todos[id])
            && (id !in db.todos ==>
                  var row := r.value;
                  && StoredRow(db, after, "upsert", row, now)
                  && row.id == id && TrimmedFrom(row.title, req.title) && row.note == req.note
                  && row.status == (if req.status.Some? then req.status.value else "inbox")
                  && row.dueDate == req.dueDate && row.priority == (if req.priority.Some? then req.priority.value else 0)
                  && row.linkedMemoId == req.linkedMemoId && !row.isDeleted && row.deletedAt.None?
                  && row.revision == 1 && row.etag == ETag.Format(1, id)
                  && row.createdAt == row.updatedAt == now
                  && row.completedAt == if row.status == "completed" then Some(now) else None)
  {
    TrimIsTrimmed(req.title);
  }

  // ----- update -----

  /** An update goes through exactly for a live row in the version named, with valid fields and an existing link. */
  lemma UpdateIff(db: TodoDb, id: string, req: UpdateRequest, now: nat)
    ensures var (after, r) := Update(db, id, req, now);
            if id !in db.todos || db.todos[id].isDeleted then (after, r) == (db, Err(NotFound))
            else
              var row := db.todos[id];
              var title := if req.title.Some? then req.title.value else row.title;
              var status := if req.status.Some? then req.status.value else row.status;
              var priority := if req.priority.Some? then req.priority.value else row.priority;
              var link := if req.linkedMemoId.Some? then req.linkedMemoId.value else row.linkedMemoId;
              && (r.Ok? <==> UpToDate(row, req.baseRevision, req.ifMatchEtag) && FieldsOk(title, status, priority) && LinkOk(db, link))
              && (r.Err? ==>
                    after == db
                    && r.code == if !UpToDate(row, req.baseRevision, req.ifMatchEtag) then Conflict
                                 else if !FieldsOk(title, status, priority) then InvalidArgument
                                 else NotFound)
  {
    if id in db.todos {
      var row := db.todos[id];
      FieldsIff(req.title.GetOr(row.title), req.status.GetOr(row.status), req.priority.GetOr(row.priority));
    }
  }

  /** It sets the fields it names and keeps the others, one revision up. */
  lemma UpdateSets(db: TodoDb, id: string, req: UpdateRequest, now: nat)
    requires Update(db, id, req, now).1.Ok? && db.todos[id].id == id
    ensures var (after, r) := Update(db, id, req, now);
            var was, row := db.todos[id], r.value;
            && StoredRow(db, after, "upsert", row, now)
            && TrimmedFrom(row.title, if req.title.Some? then req.title.value else was.title)
            && row.note == (if req.note.Some? then req.note.value else was.note)
            && row.status == (if req.status.Some? then req.status.value else was.status)
            && row.dueDate == (if req.dueDate.Some? then req.dueDate.value else was.dueDate)
            && row.priority == (if req.priority.Some? then req.priority.value else was.priority)
            && row.linkedMemoId == (if req.linkedMemoId.Some? then req.linkedMemoId.value else was.linkedMemoId)
            && row.completedAt == (if row.status != "completed" then None
                                   else if was.completedAt.Some? then was.completedAt else Some(now))
            && row.id == id && row.createdAt == was.createdAt && row.updatedAt == now
            && !row.isDeleted && row.deletedAt == was.deletedAt
            && row.revision == was.revision + 1 && row.etag == ETag.Format(was.revision + 1, id)
  {
    TrimIsTrimmed(if req.title.Some? then req.title.value else db.todos[id].title);
  }

  // ----- trash, purge, restore -----

  /** The row moves between table and trash one revision up, and keeps its other fields. */
  predicate Moved(was: Todo, row: Todo, deletedAt: Option<nat>, now: nat) {
    row == was.(isDeleted := deletedAt.Some?, deletedAt := deletedAt, updatedAt := now, revision := was.revision + 1,
                etag := ETag.Format(was.revision + 1, was.id))
  }

  lemma DeleteIff(db: TodoDb, id: string, rev: Option<int>, etag: Option<string>, permanent: bool, now: nat)
    requires id in db.todos ==> db.todos[id].id == id
    ensures var (after, r) := Delete(db, id, rev, etag, permanent, now);
            && (r.Ok? <==> id in db.todos && UpToDate(db.todos[id], rev, etag) && db.todos[id].isDeleted == permanent)
            && (r.Err? ==>
                  after == db
                  && r.code == if id !in db.todos || (db.todos[id].isDeleted && !permanent) then NotFound
                               else if !UpToDate(db.todos[id], rev, etag) then Conflict
                               else InvalidArgument)
            && (r.Ok? && permanent ==>
                  after.todos == db.todos - {id} && after.memos == db.memos
                  && LoggedRow(db.log, after.log, "delete", db.todos[id], now))
            && (r.Ok? && !permanent ==>
                  id in after.todos && Moved(db.todos[id], after.todos[id], Some(now), now)
                  && StoredRow(db, after, "delete", after.todos[id], now))
  {
  }

  lemma RestoreIff(db: TodoDb, id: string, rev: Option<int>, etag: Option<string>, now: nat)
    requires id in db.todos ==> db.todos[id].id == id
    ensures var (after, r) := Restore(db, id, rev, etag, now);
            && (r.Ok? <==> id in db.todos && UpToDate(db.todos[id], rev, etag) && db.todos[id].isDeleted)
            && (r.Err? ==>
                  after == db
                  && r.code == if id !in db.todos then NotFound
                               else if !db.todos[id].isDeleted then InvalidArgument
                               else Conflict)
            && (r.Ok? ==> Moved(db.todos[id], r.value, None, now) && StoredRow(db, after, "upsert", r.value, now))
  {
  }
}
