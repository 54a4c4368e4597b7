/** What each operation of the memo repository does to a reachable state, said without its own helpers. */
module MemoLaws {
  import opened Domain
  import ETag
  import Markdown
  import Utf8
  import opened Words
  import opened Records
  import opened SyncLog
  import opened BlobStores
  import opened Memos
  import opened MemoRuns
  import opened MemoHistory

  // ----- who may save -----

  predicate EtagNames(memo: Memo, req: SaveRequest) {
    req.ifMatchEtag.Some? && ETag.Matches(req.ifMatchEtag.value, memo.revision, memo.contentHash)
  }

  predicate BaseNames(memo: Memo, req: SaveRequest) {
    req.baseRevision == Some(memo.revision) && req.baseHash == Some(memo.contentHash)
  }

  predicate GivesBase(req: SaveRequest) {
    req.ifMatchEtag.None? && req.baseRevision.Some? && req.baseHash.Some?
  }

  /** The lease is one of this memo and this actor, and has not run out. */
  predicate LeaseIsGood(db: MemoDb, req: SaveRequest, id: string, now: nat) {
    id in db.leases && db.leases[id].memoId == req.memoId && db.leases[id].actorId == req.actorId && db.leases[id].expiresAt > now
  }

  /** An etag that is given decides alone; without one, a full base does; without both only the body is refused. */
  predicate VersionNamed(memo: Memo, req: SaveRequest) {
    if req.ifMatchEtag.Some? then EtagNames(memo, req)
    else if GivesBase(req) then BaseNames(memo, req)
    else req.body.None?
  }

  /** The memo is there in the version named, a lease that is given is good, and a notebook that is given is live. */
  predicate Accepts(db: MemoDb, req: SaveRequest, now: nat) {
    && req.memoId in db.memos && req.memoId in db.contents
    && VersionNamed(db.memos[req.memoId], req)
    && (req.leaseId.Some? ==> LeaseIsGood(db, req, req.leaseId.value, now))
    && (req.notebookId.Some? ==> req.notebookId.value in db.notebooks)
  }

  /** A save that is neither a retry nor without a key is refused by these checks exactly when the state does not accept
      it, and the first thing wrong names the error. */
  lemma RefusedIff(env: Env, db: MemoDb, req: SaveRequest, sid: string, now: nat)
    requires req.key != "" && !(req.key in db.keys && db.keys[req.key].expiresAt > now)
    ensures Refusal(db, req, now).None? <==> Accepts(db, req, now)
    ensures !Accepts(db, req, now) ==>
              Save(env, db, req, sid, now) ==
              (db, Err(if req.memoId !in db.memos then NotFound
                       else if !VersionNamed(db.memos[req.memoId], req) then
                         if req.ifMatchEtag.Some? then RevisionConflict
                         else if GivesBase(req) then ContentConflict
                         else PreconditionFailed
                       else if req.leaseId.Some? && !LeaseIsGood(db, req, req.leaseId.value, now) then LeaseConflict
                       else NotFound))
  {
  }

  // ----- what a save stores -----

  /** The bytes with this hash are in the store. */
  predicate HasBytes(env: Env, files: Files, hash: string) {
    Load(files, hash).Some? && env.digest(Load(files, hash).value) == hash
  }

  ghost predicate ContentsBacked(env: Env, files: Files, contents: map<string, Content>) {
    forall id :: id in contents && contents[id].blobRef.Some? ==> HasBytes(env, files, contents[id].blobRef.value)
  }

  /** Every blob that a memo or a resource names is in the store. */
  ghost predicate Backed(env: Env, db: MemoDb) {
    && Addressed(db.files, env.digest)
    && ContentsBacked(env, db.files, db.contents)
    && forall hash :: hash in db.resources ==> HasBytes(env, db.files, hash)
  }

  lemma BackedBody(env: Env, db: MemoDb, after: MemoDb, id: string, md: string, revision: nat)
    requires Backed(env, db) && CollisionFree(env.digest) && after.resources == db.resources
    requires after.files == FilesWith(env, db.files, md) && after.contents == db.contents[id := ContentFor(env, md, revision)]
    ensures Backed(env, after)
  {
    StoredBodyReads(env, db.files, md, revision);
    forall x | x in after.contents && after.contents[x].blobRef.Some?
      ensures HasBytes(env, after.files, after.contents[x].blobRef.value)
    {
      if x != id {
        assert HasBytes(env, db.files, db.contents[x].blobRef.value);
      }
    }
  }

  lemma ContentBacked(env: Env, db: MemoDb, req: SaveRequest, md: string, sid: string, now: nat)
    requires Backed(env, db) && CollisionFree(env.digest) && req.memoId in db.memos
    ensures Backed(env, SaveContent(env, db, db.memos[req.memoId], req, md, sid, now))
  {
    var memo := db.memos[req.memoId];
    BackedBody(env, db, SaveContent(env, db, memo, req, md, sid, now), req.memoId, md, memo.revision + 1);
  }

  lemma MetaBacked(env: Env, db: MemoDb, req: SaveRequest, now: nat)
    requires Backed(env, db) && req.memoId in db.memos
    ensures Backed(env, SaveMeta(db, db.memos[req.memoId], req, now))
  {
  }

  lemma SaveBacked(env: Env, db: MemoDb, req: SaveRequest, sid: string, now: nat)
    requires Backed(env, db) && CollisionFree(env.digest)
    ensures Backed(env, Save(env, db, req, sid, now).0)
  {
    var after := Save(env, db, req, sid, now).0;
    if after != db {
      if req.body.Some? {
        var requested := Requested(env, db, db.contents[req.memoId], req.body.value);
        ContentBacked(env, db, req, Markdown.Normalize(requested.value), sid, now);
      } else {
        MetaBacked(env, db, req, now);
      }
    }
  }

  lemma CreateBacked(env: Env, db: MemoDb, request: NewMemo, id: string, now: nat)
    requires Backed(env, db) && CollisionFree(env.digest)
    ensures Backed(env, Create(env, db, request, id, now).0)
  {
    if request.notebookId in db.notebooks {
      BackedBody(env, db, Create(env, db, request, id, now).0, id, Markdown.Normalize(request.markdown), 1);
    }
  }

  lemma {:induction false} MoveSameContents(db: MemoDb, ids: seq<string>, notebookId: string, now: nat)
    ensures var after := MoveAll(db, ids, notebookId, now);
            after.contents == db.contents && after.files == db.files && after.resources == db.resources
  {
    if ids == [] {
    } else {
      MoveSameContents(db, ids[..|ids| - 1], notebookId, now);
    }
  }

  lemma UploadBacked(env: Env, db: MemoDb, bytes: Bytes, after: MemoDb)
    requires Backed(env, db) && CollisionFree(env.digest) && after.contents == db.contents
    requires after.files == Stored(db.files, env.digest, bytes) && after.resources == db.resources + {env.digest(bytes)}
    ensures Backed(env, after)
  {
    StoredGrows(env, db.files, bytes);
    StoreThenLoad(db.files, env.digest, bytes, "");
  }

  lemma DeleteBacked(env: Env, db: MemoDb, id: string, permanent: bool, now: nat)
    requires Backed(env, db)
    ensures Backed(env, Delete(db, id, permanent, now))
  {
  }

  lemma MoveBacked(env: Env, db: MemoDb, ids: seq<string>, notebookId: string, now: nat)
    requires Backed(env, db)
    ensures Backed(env, BatchMove(db, ids, notebookId, now).0)
  {
    MoveSameContents(db, ids, notebookId, now);
  }

  lemma OtherBacked(env: Env, db: MemoDb, op: Op, now: nat)
    requires Backed(env, db) && CollisionFree(env.digest) && !IsSave(op)
    ensures Backed(env, ApplyOther(env, db, op, now))
  {
    match op
    case CreateOp(request, id) => CreateBacked(env, db, request, id, now);
    case DeleteOp(id, permanent) => DeleteBacked(env, db, id, permanent, now);
    case MoveOp(ids, notebookId) => MoveBacked(env, db, ids, notebookId, now);
    case Upload(bytes) => UploadBacked(env, db, bytes, ApplyOther(env, db, op, now));
    case _ =>
  }

  lemma BackedStep(env: Env, s: Sys, m: string, op: Op, now: nat)
    requires Backed(env, s.db) && CollisionFree(env.digest)
    ensures Backed(env, Step(env, s, m, op, now).db)
  {
    if Enabled(s, m, op) {
      if IsSave(op) {
        if RequestOf(s.db, op).Some? {
          SaveBacked(env, s.db, RequestOf(s.db, op).value, op.snapshotId, now);
        }
      } else {
        OtherBacked(env, s.db, op, now);
      }
    }
  }

  lemma {:induction false} BackedRun(env: Env, s: Sys, m: string, ops: seq<(Op, nat)>)
    requires Backed(env, s.db) && CollisionFree(env.digest)
    ensures Backed(env, Run(env, s, m, ops).db)
  {
    if ops == [] {
    } else {
      BackedRun(env, s, m, ops[..|ops| - 1]);
      BackedStep(env, Run(env, s, m, ops[..|ops| - 1]), m, ops[|ops| - 1].0, ops[|ops| - 1].1);
    }
  }

  /** The save goes ahead: its key is usable and not taken, and the state accepts it. */
  predicate GoesAhead(db: MemoDb, req: SaveRequest, now: nat) {
    req.key != "" && !(req.key in db.keys && db.keys[req.key].expiresAt > now) && Accepts(db, req, now)
  }

  /** The save succeeded with this body: it reads back normalized, one revision up, and the answer says so. */
  ghost predicate StoredAs(env: Env, db: MemoDb, req: SaveRequest, now: nat, after: MemoDb, r: Result<Ack>, body: string)
    requires req.memoId in db.memos
  {
    && req.memoId in after.memos
    && ReadMarkdown(after, req.memoId) == Ok(Markdown.Normalize(body))
    && after.memos[req.memoId].revision == db.memos[req.memoId].revision + 1
    && ContentOk(env, after, req.memoId)
    && var memo := after.memos[req.memoId];
       r == Ok(Ack(memo.revision, memo.contentHash, memo.etag, req.leaseId, now))
  }

  /** Once the body is found, everything else goes through. */
  lemma BodyIsStored(env: Env, db: MemoDb, req: SaveRequest, sid: string, now: nat, body: string)
    requires Addressed(db.files, env.digest) && CollisionFree(env.digest) && GoesAhead(db, req, now) && req.body.Some?
    requires Requested(env, db, db.contents[req.memoId], req.body.value) == Ok(body)
    ensures var (after, r) := Save(env, db, req, sid, now); StoredAs(env, db, req, now, after, r, body)
  {
    RefusedIff(env, db, req, sid, now);
    Markdown.NormalizeIsNormal(body);
    ContentEffect(env, db, req, Markdown.Normalize(body), sid, now, req.memoId);
  }

  lemma BodyIsRefused(env: Env, db: MemoDb, req: SaveRequest, sid: string, now: nat, code: ErrorCode)
    requires GoesAhead(db, req, now) && req.body.Some?
    requires Requested(env, db, db.contents[req.memoId], req.body.value) == Err(code)
    ensures Save(env, db, req, sid, now) == (db, Err(code))
  {
    RefusedIff(env, db, req, sid, now);
  }

  /** A full body is stored as it is, but for normalization. */
  lemma FullBodyStored(env: Env, s: Sys, m: string, ops: seq<(Op, nat)>, req: SaveRequest, md: string, sid: string, now: nat)
    requires Start(env, s, m) && CollisionFree(env.digest) && req.memoId == m && req.body == Some(MarkdownFull(md))
    requires GoesAhead(Run(env, s, m, ops).db, req, now)
    ensures var db := Run(env, s, m, ops).db;
            var (after, r) := Save(env, db, req, sid, now); StoredAs(env, db, req, now, after, r, md)
  {
    RunInv(env, s, m, ops);
    BodyIsStored(env, Run(env, s, m, ops).db, req, sid, now, md);
  }

  lemma PatchBaseIsBody(env: Env, s: Sys, m: string)
    requires Inv(env, s, m) && m in s.db.memos
    ensures m in s.db.contents && ReadMarkdown(s.db, m).Ok? && PatchBase(s.db.files, s.db.contents[m]) == ReadMarkdown(s.db, m)
  {
  }

  /** A patch is applied to the body the memo reads, wherever that is kept. It is stored exactly when it applies. */
  lemma PatchStoredIff(env: Env, s: Sys, m: string, ops: seq<(Op, nat)>, req: SaveRequest, patch: string, sid: string, now: nat)
    requires Start(env, s, m) && CollisionFree(env.digest) && req.memoId == m && req.body == Some(MarkdownPatch(patch))
    requires GoesAhead(Run(env, s, m, ops).db, req, now)
    ensures var db := Run(env, s, m, ops).db;
            var (after, r) := Save(env, db, req, sid, now);
            && ReadMarkdown(db, m).Ok?
            && var patched := env.patch(ReadMarkdown(db, m).value, patch);
            && (r.Ok? <==> patched.Some?)
            && (patched.Some? ==> StoredAs(env, db, req, now, after, r, patched.value))
            && (patched.None? ==> after == db && r == Err(InvalidArgument))
  {
    var t := Run(env, s, m, ops);
    RunInv(env, s, m, ops);
    PatchBaseIsBody(env, t, m);
    match env.patch(ReadMarkdown(t.db, m).value, patch)
    case Some(body) => BodyIsStored(env, t.db, req, sid, now, body);
    case None => BodyIsRefused(env, t.db, req, sid, now, InvalidArgument);
  }

  /** A memo or a live resource names the hash. */
  ghost predicate Named(db: MemoDb, hash: string) {
    (exists id :: id in db.memos && id in db.contents && db.contents[id].blobRef == Some(hash)) || hash in db.resources
  }

  lemma NamedText(env: Env, db: MemoDb, hash: string)
    requires Backed(env, db) && CollisionFree(env.digest)
    ensures CanAccessBlob(db, hash) <==> Named(db, hash)
    ensures Named(db, hash) ==>
              && (LoadText(db.files, hash).Ok? <==> exists text :: HashOf(env, text) == hash)
              && (forall text :: HashOf(env, text) == hash ==> LoadText(db.files, hash) == Ok(text))
              && (LoadText(db.files, hash).Err? ==> LoadText(db.files, hash).code == Internal)
  {
    if Named(db, hash) {
      assert HasBytes(env, db.files, hash) by {
        if hash !in db.resources {
          var id :| id in db.memos && id in db.contents && db.contents[id].blobRef == Some(hash);
        }
      }
      var bytes := Load(db.files, hash).value;
      forall text | HashOf(env, text) == hash ensures LoadText(db.files, hash) == Ok(text) {
        Utf8.DecodeIff(bytes, text);
      }
      if LoadText(db.files, hash).Ok? {
        Utf8.DecodeIff(bytes, LoadText(db.files, hash).value);
        assert HashOf(env, LoadText(db.files, hash).value) == hash;
      }
    }
  }

  /** A body named by its hash is refused exactly when no memo's blob and no resource has that hash, or its bytes are no
      text; otherwise the text with that hash is stored. */
  lemma HashStoredIff(env: Env, s: Sys, m: string, ops: seq<(Op, nat)>, req: SaveRequest, hash: string, sid: string, now: nat)
    requires Start(env, s, m) && Backed(env, s.db) && CollisionFree(env.digest)
    requires req.memoId == m && req.body == Some(ContentHashOnly(hash)) && GoesAhead(Run(env, s, m, ops).db, req, now)
    ensures var db := Run(env, s, m, ops).db;
            var (after, r) := Save(env, db, req, sid, now);
            && (r.Ok? <==> Named(db, hash) && exists text :: HashOf(env, text) == hash)
            && (forall text :: Named(db, hash) && HashOf(env, text) == hash ==> StoredAs(env, db, req, now, after, r, text))
            && (r.Err? ==> after == db && r.code == if Named(db, hash) then Internal else NotFound)
  {
    var db := Run(env, s, m, ops).db;
    BackedRun(env, s, m, ops);
    NamedText(env, db, hash);
    if Named(db, hash) && LoadText(db.files, hash).Ok? {
      BodyIsStored(env, db, req, sid, now, LoadText(db.files, hash).value);
    } else {
      BodyIsRefused(env, db, req, sid, now, if Named(db, hash) then Internal else NotFound);
    }
  }

  // ----- snapshots -----

  /** The snapshot of the highest revision is younger than five minutes. */
  ghost predicate Young(history: seq<Snapshot>, now: nat) {
    exists s :: s in history && (forall o :: o in history ==> o.revision <= s.revision) && now - s.createdAt < 300
  }

  lemma YoungIff(history: seq<Snapshot>, now: nat)
    requires Spaced(history)
    ensures Young(history, now) <==> history != [] && now - history[|history| - 1].createdAt < 300
  {
    if history != [] {
      var last := history[|history| - 1];
      forall o | o in history ensures o == last || After(o, last) {
        var i :| 0 <= i < |history| && history[i] == o;
      }
      assert last in history;
    }
  }

  /** A save of a new body keeps the row it replaces, unless the newest snapshot is younger than five minutes. */
  lemma SnapshotTakenIff(env: Env, s: Sys, m: string, ops: seq<(Op, nat)>, req: SaveRequest, sid: string, now: nat)
    requires Start(env, s, m) && CollisionFree(env.digest) && req.memoId == m && req.body.Some?
    requires GoesAhead(Run(env, s, m, ops).db, req, now) && Save(env, Run(env, s, m, ops).db, req, sid, now).1.Ok?
    ensures var db := Run(env, s, m, ops).db;
            var after := Save(env, db, req, sid, now).0;
            var history, row := SnapshotsOf(db.snapshots, m), db.memos[m];
            SnapshotsOf(after.snapshots, m) ==
            if Young(history, now) then history
            else history + [Snapshot(sid, row.revision, row.title, row.tags, row.contentHash, now)]
  {
    var db := Run(env, s, m, ops).db;
    var history := SnapshotsOf(db.snapshots, m);
    RunInv(env, s, m, ops);
    RefusedIff(env, db, req, sid, now);
    YoungIff(history, now);
    LatestIsLast(history);
  }

  // ----- create, trash, purge, move -----

  /** One more change, about this memo. */
  predicate LoggedOne(before: Log, after: Log, id: string, operation: string, kind: string, payload: Payload, now: nat) {
    && after.rows == before.rows + [Change(before.lastId + 1, "memo", id, operation, kind, payload, "memo:" + id + ":" + kind, now)]
    && after.lastId == before.lastId + 1 && after.devices == before.devices && after.epochRow == before.epochRow
  }

  /** Nothing but memo rows and the log has changed. */
  predicate OnlyRows(before: MemoDb, after: MemoDb) {
    after == before.(memos := after.memos, log := after.log)
  }

  /** A new memo has what the request gives, revision 1, and the normalized body; others are as before. */
  lemma CreateStores(env: Env, db: MemoDb, request: NewMemo, id: string, now: nat, other: string)
    requires Addressed(db.files, env.digest) && CollisionFree(env.digest) && request.notebookId in db.notebooks && other != id
    ensures var (after, r) := Create(env, db, request, id, now);
            && r.Ok? && id in after.memos && r.value == after.memos[id]
            && var row := after.memos[id];
            && row.id == id && row.notebookId == request.notebookId && row.title == request.title && row.tags == request.tags
            && !row.isPinned && !row.isArchived && !row.isDeleted && row.deletedAt.None? && row.updatedAt == now
            && row.revision == 1 && ContentOk(env, after, id)
            && ReadMarkdown(after, id) == Ok(Markdown.Normalize(request.markdown))
            && SameRows(db, after, other)
            && LoggedOne(db.log, after.log, id, "upsert", "content", MemoEtag(id, row.etag), now)
  {
    Markdown.NormalizeIsNormal(request.markdown);
    StoredBodyReads(env, db.files, Markdown.Normalize(request.markdown), 1);
  }

  /** A memo needs a live notebook. */
  lemma CreateNeedsNotebook(env: Env, db: MemoDb, request: NewMemo, id: string, now: nat)
    ensures request.notebookId !in db.notebooks <==> Create(env, db, request, id, now).1.Err?
    ensures request.notebookId !in db.notebooks ==> Create(env, db, request, id, now) == (db, Err(NotFound))
  {
  }

  /** Trashing marks the row and restoring unmarks it; both keep the body, the version and every other memo, and are logged
      even for a memo that is not there. */
  lemma TrashAndRestore(db: MemoDb, id: string, now: nat)
    ensures var after := Delete(db, id, false, now);
            && OnlyRows(db, after)
            && after.memos == (if id in db.memos then
                                 db.memos[id := db.memos[id].(isDeleted := true, deletedAt := Some(now), updatedAt := now)]
                               else db.memos)
            && LoggedOne(db.log, after.log, id, "upsert", "meta", MemoDeleted(id, true), now)
    ensures var after := Restore(db, id, now);
            && OnlyRows(db, after)
            && after.memos == (if id in db.memos then
                                 db.memos[id := db.memos[id].(isDeleted := false, deletedAt := None, updatedAt := now)]
                               else db.memos)
            && LoggedOne(db.log, after.log, id, "upsert", "meta", MemoDeleted(id, false), now)
  {
  }

  /** Purging removes the memo with its content, snapshots and leases, and nothing else; its blobs and its idempotency rows
      stay. */
  lemma PurgeRemoves(db: MemoDb, id: string, now: nat, other: string, lease: string)
    requires other != id
    ensures var after := Delete(db, id, true, now);
            && id !in after.memos && id !in after.contents && id !in after.snapshots
            && SameRows(db, after, other)
            && (lease in after.leases <==> lease in db.leases && db.leases[lease].memoId != id)
            && (lease in after.leases ==> after.leases[lease] == db.leases[lease])
            && after.files == db.files && after.keys == db.keys && after.resources == db.resources
            && LoggedOne(db.log, after.log, id, "delete", "delete", NoPayload, now)
  {
  }

  /** A move puts every listed memo into the notebook and leaves the rest of every row alone. */
  lemma {:induction false} MoveSets(db: MemoDb, ids: seq<string>, notebookId: string, now: nat, id: string)
    ensures var after := MoveAll(db, ids, notebookId, now);
            && OnlyRows(db, after) && after.memos.Keys == db.memos.Keys
            && (id in db.memos ==>
                  after.memos[id] == if id in ids then db.memos[id].(notebookId := notebookId, updatedAt := now) else db.memos[id])
  {
    if ids == [] {
    } else {
      MoveSets(db, ids[..|ids| - 1], notebookId, now, id);
      assert ids == ids[..|ids| - 1] + [ids[|ids| - 1]];
    }
  }

  /** This change tells of a move of one of these memos. */
  predicate TellsMove(r: Change, memos: map<string, Memo>, ids: seq<string>, notebookId: string) {
    && r.entityId in ids && r.entityId in memos && r.foldKey == "memo:" + r.entityId + ":meta"
    && r.payload == MemoMoved(r.entityId, notebookId)
  }

  /** The changes from `start` on tell of moves of these memos, of every one that is there, and of nothing else. */
  ghost predicate Tells(rows: seq<Change>, start: nat, memos: map<string, Memo>, ids: seq<string>, notebookId: string) {
    && |rows| == start + Existing(memos, ids)
    && (forall i :: start <= i < |rows| ==> TellsMove(rows[i], memos, ids, notebookId))
    && (forall id :: id in ids && id in memos ==> exists i :: start <= i < |rows| && rows[i].entityId == id)
  }

  lemma TellsOneMore(rows: seq<Change>, after: seq<Change>, start: nat, memos: map<string, Memo>, ids: seq<string>,
                     last: string, notebookId: string)
    requires Tells(rows, start, memos, ids, notebookId)
    requires if last in memos then |after| == |rows| + 1 && after[..|rows|] == rows && TellsMove(after[|rows|], memos, [last], notebookId)
             else after == rows
    ensures Tells(after, start, memos, ids + [last], notebookId)
  {
    assert (ids + [last])[..|ids|] == ids;
    assert forall i :: 0 <= i < |rows| ==> after[i] == rows[i];
    forall id | id in ids + [last] && id in memos ensures exists i :: start <= i < |after| && after[i].entityId == id {
      if id in ids {
        var i :| start <= i < |rows| && rows[i].entityId == id;
        assert after[i].entityId == id;
      } else {
        assert after[|rows|].entityId == id;
      }
    }
  }

  lemma MoveOneTells(db: MemoDb, id: string, notebookId: string, now: nat)
    ensures var rows, after := db.log.rows, MoveOne(db, id, notebookId, now).log.rows;
            if id in db.memos then
              |after| == |rows| + 1 && after[..|rows|] == rows && TellsMove(after[|rows|], db.memos, [id], notebookId)
            else after == rows
  {
  }

  lemma {:induction false} MoveKeys(db: MemoDb, ids: seq<string>, notebookId: string, now: nat)
    ensures MoveAll(db, ids, notebookId, now).memos.Keys == db.memos.Keys
  {
    if ids == [] {
    } else {
      MoveKeys(db, ids[..|ids| - 1], notebookId, now);
    }
  }

  /** It reports each hit, and nothing else. */
  lemma {:induction false} MoveTells(db: MemoDb, ids: seq<string>, notebookId: string, now: nat)
    ensures var before, after := db.log.rows, MoveAll(db, ids, notebookId, now).log.rows;
            before <= after && Tells(after, |before|, db.memos, ids, notebookId)
  {
    if ids == [] {
    } else {
      var init, last := ids[..|ids| - 1], ids[|ids| - 1];
      var mid := MoveAll(db, init, notebookId, now);
      MoveTells(db, init, notebookId, now);
      MoveKeys(db, init, notebookId, now);
      MoveOneTells(mid, last, notebookId, now);
      TellsOneMore(mid.log.rows, MoveOne(mid, last, notebookId, now).log.rows, |db.log.rows|, db.memos, init, last, notebookId);
      assert ids == init + [last];
    }
  }

  /** The leases after a commit of this row. */
  predicate LeasesAt(before: map<string, Lease>, after: map<string, Lease>, used: Option<string>, row: Memo) {
    && after.Keys == before.Keys
    && forall l :: l in before ==>
         after[l] == if used == Some(l) then before[l].(baseRevision := row.revision, baseHash := row.contentHash) else before[l]
  }

  lemma CommitLeases(db: MemoDb, req: SaveRequest, row: Memo, kind: string, now: nat)
    ensures LeasesAt(db.leases, Committed(db, req, row, kind, now).leases, req.leaseId, row)
  {
  }

  /** A successful save under a lease brings that lease to the new version and touches no other. */
  lemma LeaseFollows(env: Env, db: MemoDb, req: SaveRequest, sid: string, now: nat)
    requires GoesAhead(db, req, now) && Save(env, db, req, sid, now).1.Ok?
    ensures var after := Save(env, db, req, sid, now).0;
            req.memoId in after.memos && LeasesAt(db.leases, after.leases, req.leaseId, after.memos[req.memoId])
  {
    RefusedIff(env, db, req, sid, now);
    var after := Save(env, db, req, sid, now).0;
    CommitLeases(db, req, after.memos[req.memoId], "", now);
  }
}
