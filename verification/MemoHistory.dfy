/** What users of the memo repository may rely on, in every reachable state: consistent content, no lost update, retries
    that take effect once, a faithful history, and which snapshots can be restored. */
module MemoHistory {
  import opened Domain
  import ETag
  import Markdown
  import Utf8
  import opened Words
  import opened Records
  import opened SyncLog
  import opened BlobStores
  import opened Memos
  import opened MemoRuns
  import opened MemoNews

  // ----- consistent content -----

  /** The memo row, its content row and the body it reads agree. */
  ghost predicate ContentOk(env: Env, db: MemoDb, m: string)
    requires m in db.memos
  {
    && m in db.contents
    && var memo, c, body := db.memos[m], db.contents[m], ReadMarkdown(db, m);
    && memo.etag == ETag.Format(memo.revision, memo.contentHash)
    && c.revision == memo.revision >= 1
    && c.contentHash == memo.contentHash
    && body.Ok?
    && Markdown.IsNormal(body.value)
    && HashOf(env, body.value) == memo.contentHash
    && SizeOf(body.value) == c.byteSize
    && (c.inline.Some? <==> c.byteSize <= env.threshold)
    && (c.inline.Some? <==> c.blobRef.None?)
  }

  lemma {:induction false} ContentInvariant(env: Env, s: Sys, m: string, ops: seq<(Op, nat)>)
    requires Start(env, s, m) && CollisionFree(env.digest)
    ensures var t := Run(env, s, m, ops);
            && (m in t.db.contents ==> m in t.db.memos)
            && (m in t.db.memos ==> ContentOk(env, t.db, m))
  {
    RunInv(env, s, m, ops);
  }

  /** The rows of a memo. */
  ghost predicate SameRows(before: MemoDb, after: MemoDb, id: string) {
    && (id in before.memos <==> id in after.memos)
    && (id in before.contents <==> id in after.contents)
    && (id in before.memos ==> after.memos[id] == before.memos[id])
    && (id in before.contents ==> after.contents[id] == before.contents[id])
    && SnapshotsOf(after.snapshots, id) == SnapshotsOf(before.snapshots, id)
  }

  /** The fields a request names are set, the others stay. */
  predicate FieldsSet(was: Memo, row: Memo, req: SaveRequest) {
    && row.title == (if req.title.Some? then req.title else was.title)
    && row.tags == (if req.tags.Some? then req.tags.value else was.tags)
    && row.isPinned == (if req.isPinned.Some? then req.isPinned.value else was.isPinned)
    && row.isArchived == (if req.isArchived.Some? then req.isArchived.value else was.isArchived)
    && row.notebookId == (if req.notebookId.Some? then req.notebookId.value else was.notebookId)
    && row.id == was.id && row.isDeleted == was.isDeleted && row.deletedAt == was.deletedAt
  }

  /** The tables a save without a body leaves alone. */
  ghost predicate SameContent(before: MemoDb, after: MemoDb) {
    after.contents == before.contents && after.files == before.files && after.snapshots == before.snapshots
  }

  lemma ContentTouches(env: Env, db: MemoDb, req: SaveRequest, md: string, sid: string, now: nat, other: string)
    requires req.memoId in db.memos && other != req.memoId
    ensures var after := SaveContent(env, db, db.memos[req.memoId], req, md, sid, now);
            SameRows(db, after, other) && req.memoId in after.memos
            && FieldsSet(db.memos[req.memoId], after.memos[req.memoId], req)
  {
  }

  lemma MetaTouches(db: MemoDb, req: SaveRequest, now: nat, other: string)
    requires EtagOk(db, req.memoId) && req.memoId in db.memos && other != req.memoId
    ensures var after := SaveMeta(db, db.memos[req.memoId], req, now);
            SameRows(db, after, other) && SameContent(db, after) && req.memoId in after.memos
            && FieldsSet(db.memos[req.memoId], after.memos[req.memoId], req)
            && SameVersion(db.memos[req.memoId], after.memos[req.memoId])
  {
  }

  /** A successful save that is not a retry sets the fields it names and no others, leaves version and content alone
      unless it has a body, and never touches another memo. */
  lemma SaveTouchesOnly(env: Env, db: MemoDb, req: SaveRequest, sid: string, now: nat, other: string)
    requires EtagOk(db, req.memoId) && other != req.memoId
    requires Save(env, db, req, sid, now).1.Ok? && Remembered(db.keys, req.key, now).None?
    ensures var after := Save(env, db, req, sid, now).0;
            && SameRows(db, after, other)
            && req.memoId in db.memos && req.memoId in after.memos
            && FieldsSet(db.memos[req.memoId], after.memos[req.memoId], req)
            && (req.body.None? ==> SameVersion(db.memos[req.memoId], after.memos[req.memoId]) && SameContent(db, after))
  {
    if req.body.Some? {
      var requested := Requested(env, db, db.contents[req.memoId], req.body.value);
      ContentTouches(env, db, req, Markdown.Normalize(requested.value), sid, now, other);
    } else {
      MetaTouches(db, req, now, other);
    }
  }

  // ----- no lost update -----

  /** The successful content saves of a memo carry the revisions 2, 3, 4, … without gap or repeat; each named the
      revision and hash it replaced, and reported the etag of what it stored. */
  lemma {:induction false} NoLostUpdate(env: Env, s: Sys, m: string, ops: seq<(Op, nat)>)
    requires Start(env, s, m) && CollisionFree(env.digest)
    ensures var t := Run(env, s, m, ops);
            && SavesOk(env, t.saves, t.bodies)
            && (m in t.db.memos ==> t.db.memos[m].revision == |t.bodies| == |t.saves| + 1
                                    && ReadMarkdown(t.db, m) == Ok(t.bodies[|t.bodies| - 1]))
  {
    RunInv(env, s, m, ops);
  }

  /** An etag of an earlier revision is refused, even if the memo's body and hash have returned to what they were. */
  lemma SupersededEtagRefused(env: Env, db: MemoDb, req: SaveRequest, revision: nat, hash: string, sid: string, now: nat)
    requires req.memoId in db.memos && revision < db.memos[req.memoId].revision
    requires req.ifMatchEtag == Some(ETag.Format(revision, hash))
    requires req.key != "" && Remembered(db.keys, req.key, now).None?
    ensures Save(env, db, req, sid, now) == (db, Err(RevisionConflict))
  {
    ETag.FormattedMatchesIff(revision, hash, db.memos[req.memoId].revision, db.memos[req.memoId].contentHash);
  }

  /** Of two requests made from the same version, at most one succeeds. */
  lemma {:induction false} OneWriterWins(env: Env, s: Sys, m: string, ops: seq<(Op, nat)>, i: nat, j: nat)
    requires Start(env, s, m) && CollisionFree(env.digest)
    requires i < j < |Run(env, s, m, ops).saves|
    ensures var saves := Run(env, s, m, ops).saves;
            && saves[i].req.Some? && saves[j].req.Some? && saves[i].answer.Ok? && saves[j].answer.Ok?
            && (saves[i].req.value.ifMatchEtag.Some? ==> saves[i].req.value.ifMatchEtag != saves[j].req.value.ifMatchEtag)
            && saves[i].answer.value.revision < saves[j].answer.value.revision
            && saves[i].answer.value.etag != saves[j].answer.value.etag
  {
    RunInv(env, s, m, ops);
    var t := Run(env, s, m, ops);
    var a, b := t.saves[i], t.saves[j];
    assert SaveOk(env, a, i + 1, t.bodies[i], t.bodies[i + 1]) && SaveOk(env, b, j + 1, t.bodies[j], t.bodies[j + 1]);
    if a.answer.value.etag == b.answer.value.etag {
      ETag.FormatInjective(i + 2, HashOf(env, t.bodies[i + 1]), j + 2, HashOf(env, t.bodies[j + 1]));
    }
  }

  // ----- retries -----

  lemma SaveKeepsKey(env: Env, db: MemoDb, req: SaveRequest, sid: string, now: nat, key: string)
    requires key in db.keys
    ensures var after := Save(env, db, req, sid, now).0; key in after.keys && after.keys[key] == db.keys[key]
  {
  }

  lemma SavingKeepsKey(env: Env, db: MemoDb, op: Op, now: nat, key: string)
    requires key in db.keys && IsSave(op)
    ensures var after := SaveResult(env, db, op, now).0; key in after.keys && after.keys[key] == db.keys[key]
  {
    if RequestOf(db, op).Some? {
      SaveKeepsKey(env, db, RequestOf(db, op).value, op.snapshotId, now, key);
    }
  }

  lemma OtherKeepsKeys(env: Env, db: MemoDb, op: Op, now: nat)
    requires !IsSave(op)
    ensures ApplyOther(env, db, op, now).keys == db.keys
  {
    if op.MoveOp? {
      MoveKeepsKeys(db, op.ids, op.notebookId, now);
    }
  }

  /** No operation changes or removes an idempotency row. */
  lemma KeyKept(env: Env, db: MemoDb, op: Op, now: nat, key: string)
    requires key in db.keys
    ensures var after := Apply(env, db, op, now); key in after.keys && after.keys[key] == db.keys[key]
  {
    if IsSave(op) {
      SavingKeepsKey(env, db, op, now, key);
    } else {
      OtherKeepsKeys(env, db, op, now);
    }
  }

  lemma {:induction false} MoveKeepsKeys(db: MemoDb, ids: seq<string>, notebookId: string, now: nat)
    ensures MoveAll(db, ids, notebookId, now).keys == db.keys
  {
    if ids == [] {
    } else {
      MoveKeepsKeys(db, ids[..|ids| - 1], notebookId, now);
    }
  }

  lemma {:induction false} KeyKeptRun(env: Env, s: Sys, m: string, ops: seq<(Op, nat)>, key: string)
    requires key in s.db.keys
    ensures var t := Run(env, s, m, ops); key in t.db.keys && t.db.keys[key] == s.db.keys[key]
  {
    if ops == [] {
    } else {
      var t := Run(env, s, m, ops[..|ops| - 1]);
      KeyKeptRun(env, s, m, ops[..|ops| - 1], key);
      KeyKept(env, t.db, ops[|ops| - 1].0, ops[|ops| - 1].1, key);
    }
  }

  /** A save under a new key that succeeds fixes its answer. */
  lemma FirstSaveIsRemembered(env: Env, db: MemoDb, req: SaveRequest, sid: string, now: nat)
    requires req.key !in db.keys && Save(env, db, req, sid, now).1.Ok?
    ensures var (after, r) := Save(env, db, req, sid, now);
            req.key in after.keys && after.keys[req.key] == KeyRow(req.memoId, r.value, now + 86400)
  {
  }

  /** Whatever happens in between, a later save with the same key returns that answer and changes nothing, for a day.
      After that the row is still there and still not replaced, so no save with that key is recognized again. */
  lemma {:induction false} RetryAtMostOnce(env: Env, s: Sys, m: string, first: SaveRequest, sid: string, now: nat,
                        ops: seq<(Op, nat)>, again: SaveRequest, sid': string, later: nat)
    requires first.key !in s.db.keys && Save(env, s.db, first, sid, now).1.Ok? && Enabled(s, m, SaveOp(first, sid))
    requires again.key == first.key
    ensures var ack := Save(env, s.db, first, sid, now).1;
            var t := Run(env, Step(env, s, m, SaveOp(first, sid), now), m, ops);
            && (later < now + 86400 ==> Save(env, t.db, again, sid', later) == (t.db, ack))
            && (later >= now + 86400 ==> Save(env, t.db, again, sid', later) == SaveFresh(env, t.db, again, sid', later))
            && var after := Save(env, t.db, again, sid', later).0;
               first.key in after.keys && after.keys[first.key] == KeyRow(first.memoId, ack.value, now + 86400)
  {
    var s1 := Step(env, s, m, SaveOp(first, sid), now);
    FirstSaveIsRemembered(env, s.db, first, sid, now);
    assert s1.db == Save(env, s.db, first, sid, now).0;
    KeyKeptRun(env, s1, m, ops, first.key);
    KeyKept(env, Run(env, s1, m, ops).db, SaveOp(again, sid'), later, first.key);
  }

  // ----- history -----

  /** Snapshots are of past revisions, in order, five minutes apart, with the hash of the body at that revision and the
      title and tags of the row that was replaced; and every body above the threshold that the memo ever had is still in
      the blob store. */
  lemma {:induction false} HistoryFaithful(env: Env, s: Sys, m: string, ops: seq<(Op, nat)>)
    requires Start(env, s, m) && CollisionFree(env.digest)
    ensures var t := Run(env, s, m, ops);
            && HistoryOk(env, SnapshotsOf(t.db.snapshots, m), t.bodies)
            && RowsOk(SnapshotsOf(t.db.snapshots, m), t.saves)
            && LargeKept(env, t.db.files, t.bodies)
  {
    RunInv(env, s, m, ops);
  }

  /** A snapshot is found by its id, if one has it. */
  lemma {:induction false} FoundIsListed(history: seq<Snapshot>, id: string)
    ensures FindSnapshot(history, id).Some? <==> exists s :: s in history && s.id == id
    ensures FindSnapshot(history, id).Some? ==> FindSnapshot(history, id).value in history && FindSnapshot(history, id).value.id == id
  {
    if history == [] || history[0].id == id {
    } else {
      FoundIsListed(history[1..], id);
      if s :| s in history && s.id == id {
        assert s in history[1..];
      }
    }
  }

  /** The bytes of a snapshot, where they are found at all, are those of its body. */
  lemma SnapshotBytesExact(env: Env, s: Sys, m: string, body: string)
    requires Inv(env, s, m) && CollisionFree(env.digest) && m in s.db.memos
    ensures var bytes := SnapshotBytes(s.db, m, HashOf(env, body));
            && (bytes.Ok? ==> bytes.value == Utf8.Encode(body))
            && (bytes.Ok? <==> Load(s.db.files, HashOf(env, body)).Some?
                               || (s.db.memos[m].contentHash == HashOf(env, body) && SizeOf(body) <= env.threshold))
  {
    LoadIsExact(s.db.files, env.digest, Utf8.Encode(body));
    if s.db.memos[m].contentHash == HashOf(env, body) {
      Utf8.DecodeIff(Utf8.Encode(body), body);
      Utf8.DecodeIff(Utf8.Encode(body), s.bodies[|s.bodies| - 1]);
    }
  }

  lemma OwnEtagAccepted(env: Env, s: Sys, m: string, req: SaveRequest, now: nat)
    requires NewsInv(env, s, m) && CollisionFree(env.digest) && m in s.db.memos && req.memoId == m
    requires req.ifMatchEtag == Some(s.db.memos[m].etag) && req.leaseId.None? && req.notebookId.None?
    ensures Refusal(s.db, req, now).None?
  {
    var memo := s.db.memos[m];
    assert |memo.contentHash| >= 64;
    ETag.FormattedMatchesIff(memo.revision, memo.contentHash, memo.revision, memo.contentHash);
  }

  /** Saving a restored body: the precondition is the memo's own etag, so the save goes through. */
  lemma RestoredSave(env: Env, s: Sys, m: string, req: SaveRequest, body: string, sid: string, now: nat)
    requires NewsInv(env, s, m) && CollisionFree(env.digest) && m in s.db.memos && Markdown.IsNormal(body)
    requires req.memoId == m && req.key != "" && req.key !in s.db.keys && req.body == Some(MarkdownFull(body))
    requires req.ifMatchEtag == Some(s.db.memos[m].etag) && req.leaseId.None? && req.notebookId.None?
    ensures var (after, r) := Save(env, s.db, req, sid, now);
            && r.Ok? && r.value.revision == s.db.memos[m].revision + 1 && r.value.contentHash == HashOf(env, body)
            && ReadMarkdown(after, m) == Ok(body) && ContentOk(env, after, m)
            && after.memos[m] == Edited(s.db.memos[m], req, s.db.memos[m].revision + 1, HashOf(env, body), now)
  {
    OwnEtagAccepted(env, s, m, req, now);
    Markdown.NormalizeFixedPoints(body);
    assert Save(env, s.db, req, sid, now).0 == SaveContent(env, s.db, s.db.memos[m], req, body, sid, now);
    ContentEffect(env, s.db, req, body, sid, now, m);
  }

  ghost predicate NormalBodies(bodies: seq<string>) {
    forall i :: 0 <= i < |bodies| ==> Markdown.IsNormal(bodies[i])
  }

  lemma NormalSnoc(bodies: seq<string>, body: string)
    requires NormalBodies(bodies) && Markdown.IsNormal(body)
    ensures NormalBodies(bodies + [body])
  {
  }

  /** The observer sees at most one more body at a time. */
  lemma BodiesGrow(env: Env, s: Sys, m: string, op: Op, now: nat)
    ensures var t := Step(env, s, m, op, now);
            t.bodies == s.bodies || (m in t.db.memos && |t.bodies| > 0 && t.bodies == s.bodies + [t.bodies[|t.bodies| - 1]])
  {
  }

  lemma {:induction false} BodiesAreNormal(env: Env, s: Sys, m: string, ops: seq<(Op, nat)>)
    requires Start(env, s, m) && CollisionFree(env.digest)
    ensures NormalBodies(Run(env, s, m, ops).bodies)
  {
    if ops == [] {
    } else {
      var init, t' := ops[..|ops| - 1], Run(env, s, m, ops);
      var t := Run(env, s, m, init);
      BodiesAreNormal(env, s, m, init);
      BodiesGrow(env, t, m, ops[|ops| - 1].0, ops[|ops| - 1].1);
      if t'.bodies != t.bodies {
        RunInv(env, s, m, ops);
        NormalSnoc(t.bodies, t'.bodies[|t'.bodies| - 1]);
      }
    }
  }

  /** Restoring a snapshot of this row and body succeeds exactly when its bytes are found, and gives back the body, the
      tags and the title, if there was one. */
  ghost predicate RestoresIff(env: Env, s: Sys, m: string, row: Memo, body: string, after: MemoDb, r: Result<Ack>)
    requires m in s.db.memos
  {
    && (r.Ok? <==> Load(s.db.files, HashOf(env, body)).Some?
                   || (s.db.memos[m].contentHash == HashOf(env, body) && SizeOf(body) <= env.threshold))
    && (r.Ok? ==> r.value.revision == s.db.memos[m].revision + 1 && r.value.contentHash == HashOf(env, body)
                  && ReadMarkdown(after, m) == Ok(body) && m in after.memos && ContentOk(env, after, m)
                  && after.memos[m].tags == row.tags
                  && after.memos[m].title == (if row.title.Some? then row.title else s.db.memos[m].title)
                  && after.memos[m].isPinned == s.db.memos[m].isPinned && after.memos[m].isArchived == s.db.memos[m].isArchived
                  && after.memos[m].isDeleted == s.db.memos[m].isDeleted && after.memos[m].notebookId == s.db.memos[m].notebookId)
    && (r.Err? ==> after == s.db && r.code == NotFound)
  }

  lemma RestoreFound(env: Env, s: Sys, m: string, actor: string, revisionId: string, key: string, sid: string, now: nat,
                     snapshot: Snapshot, row: Memo, body: string)
    requires snapshot.title == row.title && snapshot.tags == row.tags
    requires NewsInv(env, s, m) && CollisionFree(env.digest) && m in s.db.memos && Markdown.IsNormal(body)
    requires FindSnapshot(SnapshotsOf(s.db.snapshots, m), revisionId) == Some(snapshot)
    requires snapshot.contentHash == HashOf(env, body) && key != "" && key !in s.db.keys
    ensures var (after, r) := RestoreRevision(env, s.db, actor, m, revisionId, key, sid, now);
            RestoresIff(env, s, m, row, body, after, r)
  {
    SnapshotBytesExact(env, s, m, body);
    var bytes := SnapshotBytes(s.db, m, snapshot.contentHash);
    if bytes.Ok? {
      Utf8.DecodeIff(bytes.value, body);
      var req := RestoreRequest(s.db, actor, m, revisionId, key).value;
      RestoredSave(env, s, m, req, body, sid, now);
    }
  }

  /** A listed snapshot is of a body the memo had, and a large body is still there. */
  lemma SnapshotBody(env: Env, s: Sys, m: string, revisionId: string, snapshot: Snapshot)
    requires Inv(env, s, m) && NormalBodies(s.bodies)
    requires FindSnapshot(SnapshotsOf(s.db.snapshots, m), revisionId) == Some(snapshot)
    ensures 1 <= snapshot.revision < |s.bodies| && OfRow(snapshot, s.saves)
    ensures var body := s.bodies[snapshot.revision - 1];
            && snapshot.contentHash == HashOf(env, body) && Markdown.IsNormal(body)
            && (SizeOf(body) > env.threshold ==> Load(s.db.files, HashOf(env, body)).Some?)
  {
    FoundIsListed(SnapshotsOf(s.db.snapshots, m), revisionId);
  }

  /** Without the memo or a snapshot with that id nothing is restored. */
  lemma RestoreNeedsSnapshot(env: Env, db: MemoDb, actor: string, m: string, revisionId: string, key: string, sid: string, now: nat)
    requires m !in db.memos || m !in db.snapshots || forall s :: s in db.snapshots[m] ==> s.id != revisionId
    ensures RestoreRevision(env, db, actor, m, revisionId, key, sid, now) == (db, Err(NotFound))
  {
    FoundIsListed(SnapshotsOf(db.snapshots, m), revisionId);
  }

  /** Restoring a snapshot succeeds exactly when its body is in the blob store or is the current inline body; it then
      gives back the body and the tags the memo had when that revision was replaced, and the title if it had one, one
      revision up.
      Saves never put small bodies into the store, so only bodies above the threshold are sure to be restorable. */
  lemma RestoreSnapshotIff(env: Env, s: Sys, m: string, ops: seq<(Op, nat)>, actor: string, revisionId: string, key: string,
                           sid: string, now: nat, snapshot: Snapshot)
    requires Start(env, s, m) && CollisionFree(env.digest) && ValidLog(s.db.log) && m in Run(env, s, m, ops).db.memos
    requires FindSnapshot(SnapshotsOf(Run(env, s, m, ops).db.snapshots, m), revisionId) == Some(snapshot)
    requires key != "" && key !in Run(env, s, m, ops).db.keys
    ensures var t := Run(env, s, m, ops);
            && 1 <= snapshot.revision < |t.bodies| && snapshot.revision <= |t.saves|
            && var row, body := t.saves[snapshot.revision - 1].replaced, t.bodies[snapshot.revision - 1];
               var (after, r) := RestoreRevision(env, t.db, actor, m, revisionId, key, sid, now);
            && row.revision == snapshot.revision
            && RestoresIff(env, t, m, row, body, after, r)
            && (SizeOf(body) > env.threshold ==> r.Ok?)
  {
    var t := Run(env, s, m, ops);
    NewsRun(env, s, m, ops);
    BodiesAreNormal(env, s, m, ops);
    SnapshotBody(env, t, m, revisionId, snapshot);
    RestoreFound(env, t, m, actor, revisionId, key, sid, now, snapshot, t.saves[snapshot.revision - 1].replaced,
                 t.bodies[snapshot.revision - 1]);
  }
}
