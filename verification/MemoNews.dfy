/** The change log of a run of the memo repository: the newest content row of a memo carries its etag. */
module MemoNews {
  import opened Domain
  import Markdown
  import opened Records
  import opened SyncLog
  import opened BlobStores
  import opened Memos
  import opened MemoRuns
  import SyncRuns

  /** What the newest `memo:{id}:content` row says. */
  function News(log: Log, m: string): Option<Payload> {
    var view := Replay(map[], log.rows);
    if MemoKey(m, "content") in view then Some(view[MemoKey(m, "content")].payload) else None
  }

  predicate Changed(before: MemoDb, after: MemoDb, m: string) {
    m in after.memos && (m in before.memos ==> after.memos[m].revision != before.memos[m].revision)
  }

  /** An operation announces the memo's etag exactly when it changes its revision. */
  predicate Announced(before: MemoDb, after: MemoDb, m: string) {
    && ValidLog(after.log) && after.log.lastId >= before.log.lastId
    && if Changed(before, after, m) then
         after.log.lastId > before.log.lastId && News(after.log, m) == Some(MemoEtag(m, after.memos[m].etag))
       else News(after.log, m) == News(before.log, m)
  }

  lemma KeysDiffer(a: string, b: string, kind: string)
    ensures MemoKey(a, "content") == MemoKey(b, "content") <==> a == b
    ensures kind in ["meta", "delete"] ==> MemoKey(a, kind) != MemoKey(b, "content")
    ensures "memo:" <= MemoKey(a, kind)
  {
    var x, y := MemoKey(a, "content"), MemoKey(b, "content");
    if x == y {
      assert a == x[5..|x| - 8] && b == y[5..|y| - 8];
    }
    var z := MemoKey(a, kind);
    assert kind == "meta" ==> z[|z| - 1] == 'a';
    assert kind == "delete" ==> z[|z| - 1] == 'e';
    assert y[|y| - 1] == 't';
    assert z == "memo:" + (a + ":" + kind);
  }

  lemma AppendNews(log: Log, c: Change, m: string)
    requires ValidLog(log) && log.lastId + 1 < I63
    ensures ValidLog(Appended(log, c)) && Appended(log, c).lastId == log.lastId + 1
    ensures News(Appended(log, c), m) == if c.foldKey == MemoKey(m, "content") then Some(c.payload) else News(log, m)
  {
    assert Appended(log, c).rows[..|log.rows|] == log.rows;
  }

  lemma AnnounceNews(log: Log, id: string, operation: string, kind: string, payload: Payload, now: nat, m: string)
    requires ValidLog(log) && log.lastId + 1 < I63 && kind in ["content", "meta", "delete"]
    ensures var log' := Announce(log, id, operation, kind, payload, now);
            && ValidLog(log') && log'.lastId == log.lastId + 1
            && News(log', m) == if kind == "content" && id == m then Some(payload) else News(log, m)
  {
    AppendNews(log, Change(0, "memo", id, operation, kind, payload, MemoKey(id, kind), now), m);
    KeysDiffer(id, m, kind);
  }

  // ----- each operation -----

  lemma CommittedNews(db: MemoDb, req: SaveRequest, memo: Memo, kind: string, now: nat, m: string)
    requires ValidLog(db.log) && db.log.lastId + 1 < I63 && req.memoId in db.memos
    requires kind == if memo.revision != db.memos[req.memoId].revision then "content" else "meta"
    ensures Announced(db, Committed(db, req, memo, kind, now), m)
  {
    AnnounceNews(db.log, req.memoId, "upsert", kind, MemoEtag(req.memoId, memo.etag), now, m);
  }

  lemma ContentNews(env: Env, db: MemoDb, req: SaveRequest, md: string, sid: string, now: nat, m: string)
    requires ValidLog(db.log) && db.log.lastId + 1 < I63 && req.memoId in db.memos
    ensures Announced(db, SaveContent(env, db, db.memos[req.memoId], req, md, sid, now), m)
  {
    var after := SaveContent(env, db, db.memos[req.memoId], req, md, sid, now);
    var prepared := db.(contents := after.contents, files := after.files, snapshots := after.snapshots);
    var next := after.memos[req.memoId];
    assert after == Committed(prepared, req, next, "content", now);
    CommittedNews(prepared, req, next, "content", now, m);
  }

  lemma SaveFreshNews(env: Env, db: MemoDb, req: SaveRequest, sid: string, now: nat, m: string)
    requires ValidLog(db.log) && db.log.lastId + 1 < I63
    ensures Announced(db, SaveFresh(env, db, req, sid, now).0, m)
  {
    if Refusal(db, req, now).None? {
      var memo := db.memos[req.memoId];
      if req.body.Some? {
        var requested := Requested(env, db, db.contents[req.memoId], req.body.value);
        if requested.Ok? {
          ContentNews(env, db, req, Markdown.Normalize(requested.value), sid, now, m);
        }
      } else if !NothingToSave(req) {
        CommittedNews(db, req, Edited(memo, req, memo.revision, memo.contentHash, now), "meta", now, m);
      }
    }
  }

  lemma SavingNews(env: Env, db: MemoDb, op: Op, now: nat, m: string)
    requires ValidLog(db.log) && db.log.lastId + 1 < I63 && IsSave(op)
    ensures Announced(db, SaveResult(env, db, op, now).0, m)
  {
    var after := SaveResult(env, db, op, now).0;
    if after != db {
      var req := RequestOf(db, op).value;
      assert SaveResult(env, db, op, now) == SaveFresh(env, db, req, op.snapshotId, now);
      SaveFreshNews(env, db, req, op.snapshotId, now, m);
    }
  }

  lemma {:induction false} MoveNews(db: MemoDb, ids: seq<string>, notebookId: string, now: nat, m: string)
    requires ValidLog(db.log) && db.log.lastId + |ids| < I63
    ensures var after := MoveAll(db, ids, notebookId, now);
            Announced(db, after, m) && after.log.lastId <= db.log.lastId + |ids| && after.memos.Keys == db.memos.Keys
  {
    if ids == [] {
    } else {
      var middle := MoveAll(db, ids[..|ids| - 1], notebookId, now);
      var id := ids[|ids| - 1];
      MoveNews(db, ids[..|ids| - 1], notebookId, now, m);
      MoveEffect(db, ids[..|ids| - 1], notebookId, now, m);
      if id in middle.memos {
        AnnounceNews(middle.log, id, "upsert", "meta", MemoMoved(id, notebookId), now, m);
      }
    }
  }

  lemma CreateNews(env: Env, db: MemoDb, request: NewMemo, id: string, now: nat, m: string)
    requires ValidLog(db.log) && db.log.lastId + 1 < I63 && id !in db.memos
    ensures Announced(db, Create(env, db, request, id, now).0, m)
  {
    AnnounceNews(db.log, id, "upsert", "content", MemoEtag(id, Created(env, request, id, now).etag), now, m);
  }

  lemma PurgeNews(db: MemoDb, id: string, now: nat, m: string)
    requires ValidLog(db.log) && db.log.lastId + 1 < I63
    ensures Announced(db, Delete(db, id, true, now), m)
  {
    AnnounceNews(db.log, id, "delete", "delete", NoPayload, now, m);
  }

  lemma TrashNews(db: MemoDb, id: string, now: nat, m: string)
    requires ValidLog(db.log) && db.log.lastId + 1 < I63
    ensures Announced(db, Delete(db, id, false, now), m)
  {
    AnnounceNews(db.log, id, "upsert", "meta", MemoDeleted(id, true), now, m);
  }

  lemma RestoreNews(db: MemoDb, id: string, now: nat, m: string)
    requires ValidLog(db.log) && db.log.lastId + 1 < I63
    ensures Announced(db, Restore(db, id, now), m)
  {
    AnnounceNews(db.log, id, "upsert", "meta", MemoDeleted(id, false), now, m);
  }

  lemma MergeNews(db: MemoDb, id: string, now: nat, m: string)
    requires ValidLog(db.log)
    ensures Announced(db, MergeTrash(db, id, now), m)
  {
  }

  lemma RowNews(env: Env, s: Sys, op: Op, now: nat, m: string)
    requires ValidLog(s.db.log) && Enabled(s, m, op) && TouchesRows(op)
    ensures Announced(s.db, ApplyOther(env, s.db, op, now), m)
  {
    match op
    case CreateOp(request, id) => CreateNews(env, s.db, request, id, now, m);
    case DeleteOp(id, permanent) =>
      if permanent {
        PurgeNews(s.db, id, now, m);
      } else {
        TrashNews(s.db, id, now, m);
      }
    case RestoreOp(id) => RestoreNews(s.db, id, now, m);
    case MoveOp(ids, notebookId) => MoveNews(s.db, ids, notebookId, now, m);
    case MergedAway(id) => MergeNews(s.db, id, now, m);
  }

  lemma ApplyNews(env: Env, s: Sys, op: Op, now: nat, m: string)
    requires ValidLog(s.db.log) && Enabled(s, m, op)
    ensures Announced(s.db, Apply(env, s.db, op, now), m)
  {
    if IsSave(op) {
      SavingNews(env, s.db, op, now, m);
    } else if TouchesRows(op) {
      RowNews(env, s, op, now, m);
    } else if op.OtherWrite? {
      AppendNews(s.db.log, op.change, m);
      KeysDiffer(m, m, "content");
    }
  }

  // ----- every run -----

  ghost predicate NewsInv(env: Env, s: Sys, m: string) {
    && Inv(env, s, m)
    && ValidLog(s.db.log)
    && |s.bodies| <= s.db.log.lastId
    && (m in s.db.memos ==> News(s.db.log, m) == Some(MemoEtag(m, s.db.memos[m].etag)))
  }

  lemma NewsStep(env: Env, s: Sys, m: string, op: Op, now: nat)
    requires NewsInv(env, s, m) && CollisionFree(env.digest)
    ensures NewsInv(env, Step(env, s, m, op, now), m)
  {
    StepInv(env, s, m, op, now);
    if Enabled(s, m, op) {
      ApplyNews(env, s, op, now, m);
    }
  }

  lemma {:induction false} NewsRun(env: Env, s: Sys, m: string, ops: seq<(Op, nat)>)
    requires Start(env, s, m) && CollisionFree(env.digest) && ValidLog(s.db.log)
    ensures NewsInv(env, Run(env, s, m, ops), m)
  {
    if ops == [] {
    } else {
      NewsRun(env, s, m, ops[..|ops| - 1]);
      NewsStep(env, Run(env, s, m, ops[..|ops| - 1]), m, ops[|ops| - 1].0, ops[|ops| - 1].1);
    }
  }

  /** In every reachable state before compaction, a client that pulls the whole log in pages of any size holds, for every
      memo, a content row with the memo's current etag. */
  lemma NewestRowCarriesEtag(env: Env, s: Sys, m: string, ops: seq<(Op, nat)>, limit: int)
    requires Start(env, s, m) && CollisionFree(env.digest) && ValidLog(s.db.log)
    ensures var t := Run(env, s, m, ops);
            && ValidLog(t.db.log)
            && var view := PullAll(t.db.log.rows, 0, limit, map[]);
               m in t.db.memos ==> "memo:" + m + ":content" in view
                                   && view["memo:" + m + ":content"].payload == MemoEtag(m, t.db.memos[m].etag)
  {
    var rows := Run(env, s, m, ops).db.log.rows;
    NewsRun(env, s, m, ops);
    assert MemoKey(m, "content") == "memo:" + m + ":content";
    PagingRefinesReplay(rows, 0, limit, map[]);
    AllAbove(rows, 0);
  }

  /** The same for a registered device whose pulls interleave with the writes and with compaction: once its cursor has
      reached the newest change, it holds every memo's current etag. */
  lemma {:induction false} InterleavedNewestRow(env: Env, s: Sys, m: string, ops: seq<(Op, nat)>, c: SyncRuns.Sys,
                                                es: seq<SyncRuns.Event>)
    requires Start(env, s, m) && CollisionFree(env.digest) && ValidLog(s.db.log)
    requires SyncRuns.Retained(c) && SyncRuns.GentleRun(c, es) && c.since == 0 && c.base == map[]
    requires SyncRuns.Run(c, es).history == Run(env, s, m, ops).db.log.rows
    requires SyncRuns.Run(c, es).client.cursor >= MaxId(Run(env, s, m, ops).db.log.rows)
    ensures var t, view := Run(env, s, m, ops), SyncRuns.Run(c, es).client.view;
            m in t.db.memos ==> "memo:" + m + ":content" in view
                                && view["memo:" + m + ":content"].payload == MemoEtag(m, t.db.memos[m].etag)
  {
    NewsRun(env, s, m, ops);
    assert MemoKey(m, "content") == "memo:" + m + ":content";
    SyncRuns.WholeHistory(c, es);
  }
}
