/** Runs of the memo repository, observed at one memo: its bodies, its saves, its snapshots and its changes. */
module MemoRuns {
  import opened Domain
  import ETag
  import Markdown
  import Utf8
  import opened Words
  import opened Records
  import opened SyncLog
  import opened BlobStores
  import opened Memos

  // ----- the machine -----

  /** The operations of the repository, and what other parts of the server do to the tables it shares. `MergedAway` is
      the tail of a merge, which trashes a source without logging it. */
  datatype Op =
    | CreateOp(request: NewMemo, id: string)
    | SaveOp(req: SaveRequest, snapshotId: string)
    | RestoreRevisionOp(actorId: string, memoId: string, revisionId: string, key: string, snapshotId: string)
    | DeleteOp(id: string, permanent: bool)
    | RestoreOp(id: string)
    | MoveOp(ids: seq<string>, notebookId: string)
    | MergedAway(id: string)
    | LeaseOp(leaseId: string, lease: Lease)
    | Upload(bytes: Bytes)
    | NotebooksOp(notebooks: set<string>)
    | OtherWrite(change: Change)
    | WriteElsewhere

  predicate IsSave(op: Op) {
    op.SaveOp? || op.RestoreRevisionOp?
  }

  /** What `save` is asked to do. */
  function RequestOf(db: MemoDb, op: Op): Option<SaveRequest>
    requires IsSave(op)
  {
    match op
    case SaveOp(req, _) => Some(req)
    case RestoreRevisionOp(actor, memo, revision, key, _) =>
      match RestoreRequest(db, actor, memo, revision, key)
      case Ok(req) => Some(req)
      case Err(_) => None
  }

  function SaveResult(env: Env, db: MemoDb, op: Op, now: nat): (MemoDb, Result<Ack>)
    requires IsSave(op)
  {
    match op
    case SaveOp(req, sid) => Save(env, db, req, sid, now)
    case RestoreRevisionOp(actor, memo, revision, key, sid) => RestoreRevision(env, db, actor, memo, revision, key, sid, now)
  }

  function MergeTrash(db: MemoDb, id: string, now: nat): MemoDb {
    if id in db.memos then
      db.(memos := db.memos[id := db.memos[id].(isDeleted := true, deletedAt := Some(now), updatedAt := now)])
    else db
  }

  function ApplyOther(env: Env, db: MemoDb, op: Op, now: nat): MemoDb
    requires !IsSave(op)
  {
    match op
    case CreateOp(request, id) => Create(env, db, request, id, now).0
    case DeleteOp(id, permanent) => Delete(db, id, permanent, now)
    case RestoreOp(id) => Restore(db, id, now)
    case MoveOp(ids, notebookId) => BatchMove(db, ids, notebookId, now).0
    case MergedAway(id) => MergeTrash(db, id, now)
    case LeaseOp(id, lease) => db.(leases := db.leases[id := lease])
    case Upload(bytes) =>
      db.(files := Stored(db.files, env.digest, bytes), resources := db.resources + {env.digest(bytes)})
    case NotebooksOp(notebooks) => db.(notebooks := notebooks)
    case OtherWrite(change) => db.(log := Appended(db.log, change))
    case WriteElsewhere => db.(log := db.log.(lastId := db.log.lastId + 1))
  }

  function Apply(env: Env, db: MemoDb, op: Op, now: nat): MemoDb {
    if IsSave(op) then SaveResult(env, db, op, now).0 else ApplyOther(env, db, op, now)
  }

  /** A save that changed the memo's revision: the request, the answer and the row it replaced. */
  datatype Saved = Saved(req: Option<SaveRequest>, answer: Result<Ack>, replaced: Memo)

  /** The tables, and what an observer of the memo has seen: the body after every change of its revision, and the saves
      that changed it. */
  datatype Sys = Sys(db: MemoDb, bodies: seq<string>, saves: seq<Saved>)

  /** New ids are new, other writers use other fold keys, and row ids do not run out. */
  predicate Enabled(s: Sys, m: string, op: Op) {
    && (op.CreateOp? ==> op.id !in s.db.memos && op.id !in s.db.contents && (op.id == m ==> s.bodies == []))
    && (op.RestoreRevisionOp? ==> op.key != "" && op.key !in s.db.keys)
    && (op.OtherWrite? ==> !("memo:" <= op.change.foldKey))
    && s.db.log.lastId + 1 + (if op.MoveOp? then |op.ids| else 0) < I63
  }

  function Observe(env: Env, s: Sys, m: string, op: Op, now: nat, after: MemoDb): Sys {
    if m !in after.memos || (m in s.db.memos && after.memos[m].revision == s.db.memos[m].revision) then s.(db := after)
    else
      Sys(after, s.bodies + [match ReadMarkdown(after, m) case Ok(md) => md case Err(_) => ""],
          if m in s.db.memos && IsSave(op) then
            s.saves + [Saved(RequestOf(s.db, op), SaveResult(env, s.db, op, now).1, s.db.memos[m])]
          else s.saves)
  }

  function Step(env: Env, s: Sys, m: string, op: Op, now: nat): Sys {
    if Enabled(s, m, op) then Observe(env, s, m, op, now, Apply(env, s.db, op, now)) else s
  }

  function Run(env: Env, s: Sys, m: string, ops: seq<(Op, nat)>): Sys {
    if ops == [] then s else Step(env, Run(env, s, m, ops[..|ops| - 1]), m, ops[|ops| - 1].0, ops[|ops| - 1].1)
  }

  // ----- what an operation does to the memo -----

  ghost predicate Grown(env: Env, files: Files, files': Files) {
    && Addressed(files', env.digest)
    && forall hash :: Load(files, hash).Some? ==> Load(files', hash) == Load(files, hash)
  }

  predicate SameVersion(a: Memo, b: Memo) {
    a.revision == b.revision && a.contentHash == b.contentHash && a.etag == b.etag
  }

  ghost predicate Kept(before: MemoDb, after: MemoDb, m: string) {
    && (m in before.memos <==> m in after.memos)
    && (m in before.contents <==> m in after.contents)
    && (m in before.memos ==> SameVersion(before.memos[m], after.memos[m]))
    && (m in before.contents ==> after.contents[m] == before.contents[m])
    && SnapshotsOf(after.snapshots, m) == SnapshotsOf(before.snapshots, m)
  }

  ghost predicate Gone(after: MemoDb, m: string) {
    m !in after.memos && m !in after.contents && m !in after.snapshots
  }

  /** The memo has this body at this revision. */
  ghost predicate Holds(env: Env, db: MemoDb, m: string, md: string, revision: nat) {
    && m in db.memos && m in db.contents
    && db.memos[m].revision == revision
    && db.memos[m].contentHash == HashOf(env, md)
    && db.memos[m].etag == ETag.Format(revision, HashOf(env, md))
    && db.contents[m] == ContentFor(env, md, revision)
    && BodyOf(db.files, db.contents[m]) == Ok(md)
    && Markdown.IsNormal(md)
    && (SizeOf(md) > env.threshold ==> Load(db.files, HashOf(env, md)) == Some(Utf8.Encode(md)))
  }

  ghost predicate Born(env: Env, before: MemoDb, after: MemoDb, m: string, md: string) {
    && m !in before.memos && m !in before.contents
    && Holds(env, after, m, md, 1)
    && SnapshotsOf(after.snapshots, m) == SnapshotsOf(before.snapshots, m)
  }

  ghost predicate Advanced(env: Env, before: MemoDb, after: MemoDb, m: string, md: string, snapshotId: string, now: nat) {
    && m in before.memos
    && Holds(env, after, m, md, before.memos[m].revision + 1)
    && SnapshotsOf(after.snapshots, m) ==
       MaybeSnapshot(SnapshotsOf(before.snapshots, m), before.memos[m], snapshotId, now)
  }

  /** A stored body reads back as itself, and storing it disturbs no other. */
  lemma StoredBodyReads(env: Env, files: Files, md: string, revision: nat)
    requires Addressed(files, env.digest) && CollisionFree(env.digest)
    ensures var files' := FilesWith(env, files, md);
            && BodyOf(files', ContentFor(env, md, revision)) == Ok(md)
            && Grown(env, files, files')
            && (SizeOf(md) > env.threshold ==> Load(files', HashOf(env, md)) == Some(Utf8.Encode(md)))
  {
    StoredGrows(env, files, Utf8.Encode(md));
    Utf8.DecodeIff(Utf8.Encode(md), md);
    StoreThenLoad(files, env.digest, Utf8.Encode(md), "");
  }

  lemma StoredGrows(env: Env, files: Files, data: Bytes)
    requires Addressed(files, env.digest) && CollisionFree(env.digest)
    ensures Grown(env, files, Stored(files, env.digest, data)) && Grown(env, files, files)
  {
    StoredStaysAddressed(files, env.digest, data);
    forall hash | Load(files, hash).Some? ensures Load(Stored(files, env.digest, data), hash) == Load(files, hash) {
      StoreThenLoad(files, env.digest, data, hash);
    }
  }

  predicate EtagOk(db: MemoDb, m: string) {
    m in db.memos ==> db.memos[m].etag == ETag.Format(db.memos[m].revision, db.memos[m].contentHash)
  }

  lemma ContentEffect(env: Env, db: MemoDb, req: SaveRequest, md: string, sid: string, now: nat, m: string)
    requires Addressed(db.files, env.digest) && CollisionFree(env.digest)
    requires req.memoId in db.memos && Markdown.IsNormal(md)
    ensures var after := SaveContent(env, db, db.memos[req.memoId], req, md, sid, now);
            && Grown(env, db.files, after.files)
            && (m == req.memoId ==> Advanced(env, db, after, m, md, sid, now))
            && (m != req.memoId ==> Kept(db, after, m))
  {
    StoredBodyReads(env, db.files, md, db.memos[req.memoId].revision + 1);
  }

  lemma MetaEffect(db: MemoDb, req: SaveRequest, now: nat, m: string)
    requires req.memoId in db.memos && EtagOk(db, m)
    ensures Kept(db, SaveMeta(db, db.memos[req.memoId], req, now), m)
  {
  }

  /** A save keeps the memo's version, or is a successful save of a new body whose request named the version. */
  ghost predicate SaveOutcome(env: Env, db: MemoDb, req: SaveRequest, after: MemoDb, r: Result<Ack>, m: string, md: string,
                              sid: string, now: nat) {
    && Grown(env, db.files, after.files)
    && (|| Kept(db, after, m)
        || (&& req.memoId == m && Advanced(env, db, after, m, md, sid, now)
            && req.body.Some? && Precondition(db.memos[m], req).None?
            && r == Ok(AckOf(after.memos[m], req, now))))
  }

  lemma SaveFreshEffect(env: Env, db: MemoDb, req: SaveRequest, sid: string, now: nat, m: string) returns (md: string)
    requires Addressed(db.files, env.digest) && CollisionFree(env.digest) && EtagOk(db, m)
    ensures var (after, r) := SaveFresh(env, db, req, sid, now); SaveOutcome(env, db, req, after, r, m, md, sid, now)
  {
    md := "";
    StoredGrows(env, db.files, []);
    if Refusal(db, req, now).None? {
      if req.body.Some? {
        var requested := Requested(env, db, db.contents[req.memoId], req.body.value);
        if requested.Ok? {
          md := Markdown.Normalize(requested.value);
          Markdown.NormalizeIsNormal(requested.value);
          ContentEffect(env, db, req, md, sid, now, m);
        }
      } else if !NothingToSave(req) {
        MetaEffect(db, req, now, m);
      }
    }
  }

  lemma UnchangedOutcome(env: Env, db: MemoDb, req: SaveRequest, r: Result<Ack>, m: string, md: string, sid: string, now: nat)
    requires Addressed(db.files, env.digest)
    ensures SaveOutcome(env, db, req, db, r, m, md, sid, now)
  {
  }

  lemma SaveEffect(env: Env, db: MemoDb, req: SaveRequest, sid: string, now: nat, m: string) returns (md: string)
    requires Addressed(db.files, env.digest) && CollisionFree(env.digest) && EtagOk(db, m)
    ensures var (after, r) := Save(env, db, req, sid, now); SaveOutcome(env, db, req, after, r, m, md, sid, now)
  {
    var (after, r) := Save(env, db, req, sid, now);
    if req.key == "" || Remembered(db.keys, req.key, now).Some? {
      md := "";
      UnchangedOutcome(env, db, req, r, m, md, sid, now);
    } else {
      md := SaveFreshEffect(env, db, req, sid, now, m);
    }
  }

  lemma SavingEffect(env: Env, db: MemoDb, op: Op, now: nat, m: string) returns (md: string)
    requires Addressed(db.files, env.digest) && CollisionFree(env.digest) && EtagOk(db, m) && IsSave(op)
    ensures var (after, r) := SaveResult(env, db, op, now);
            if RequestOf(db, op).Some? then
              SaveOutcome(env, db, RequestOf(db, op).value, after, r, m, md, op.snapshotId, now)
            else after == db
  {
    md := "";
    if RequestOf(db, op).Some? {
      var req := RequestOf(db, op).value;
      assert SaveResult(env, db, op, now) == Save(env, db, req, op.snapshotId, now);
      md := SaveEffect(env, db, req, op.snapshotId, now, m);
    }
  }

  // ----- the other operations -----

  lemma BirthEffect(env: Env, db: MemoDb, after: MemoDb, request: NewMemo, id: string, now: nat, md: string)
    requires Addressed(db.files, env.digest) && CollisionFree(env.digest) && id !in db.memos && id !in db.contents
    requires after == Create(env, db, request, id, now).0 && md == Markdown.Normalize(request.markdown)
    requires request.notebookId in db.notebooks
    ensures Born(env, db, after, id, md) && Grown(env, db.files, after.files)
  {
    Markdown.NormalizeIsNormal(request.markdown);
    StoredBodyReads(env, db.files, md, 1);
  }

  lemma CreateKeeps(env: Env, db: MemoDb, after: MemoDb, request: NewMemo, id: string, now: nat, m: string)
    requires after == Create(env, db, request, id, now).0 && (m != id || request.notebookId !in db.notebooks)
    ensures Kept(db, after, m)
  {
  }

  lemma CreateEffect(env: Env, db: MemoDb, request: NewMemo, id: string, now: nat, m: string) returns (md: string)
    requires Addressed(db.files, env.digest) && CollisionFree(env.digest) && id !in db.memos && id !in db.contents
    ensures var after := Create(env, db, request, id, now).0;
            && Grown(env, db.files, after.files)
            && (Kept(db, after, m) || (m == id && Born(env, db, after, m, md)))
  {
    md := Markdown.Normalize(request.markdown);
    var after := Create(env, db, request, id, now).0;
    if request.notebookId in db.notebooks {
      BirthEffect(env, db, after, request, id, now, md);
    } else {
      StoredGrows(env, db.files, []);
    }
    if m != id || request.notebookId !in db.notebooks {
      CreateKeeps(env, db, after, request, id, now, m);
    }
  }

  lemma {:induction false} MoveEffect(db: MemoDb, ids: seq<string>, notebookId: string, now: nat, m: string)
    ensures var after := MoveAll(db, ids, notebookId, now); Kept(db, after, m) && after.files == db.files
  {
    if ids == [] {
    } else {
      MoveEffect(db, ids[..|ids| - 1], notebookId, now, m);
    }
  }

  lemma DeleteEffect(db: MemoDb, id: string, permanent: bool, now: nat, m: string)
    ensures var after := Delete(db, id, permanent, now);
            && after.files == db.files && (Kept(db, after, m) || Gone(after, m))
  {
  }

  predicate TouchesRows(op: Op) {
    op.CreateOp? || op.DeleteOp? || op.RestoreOp? || op.MoveOp? || op.MergedAway?
  }

  lemma TrashEffect(db: MemoDb, id: string, now: nat, m: string)
    ensures Kept(db, Restore(db, id, now), m) && Restore(db, id, now).files == db.files
    ensures Kept(db, MergeTrash(db, id, now), m) && MergeTrash(db, id, now).files == db.files
  {
  }

  lemma MovedEffect(db: MemoDb, ids: seq<string>, notebookId: string, now: nat, m: string)
    ensures var after := BatchMove(db, ids, notebookId, now).0; Kept(db, after, m) && after.files == db.files
  {
    MoveEffect(db, ids, notebookId, now, m);
  }

  /** An operation on existing rows keeps the memo's version or removes the memo. */
  lemma ExistingEffect(env: Env, db: MemoDb, op: Op, now: nat, m: string)
    requires TouchesRows(op) && !op.CreateOp?
    ensures var after := ApplyOther(env, db, op, now); after.files == db.files && (Kept(db, after, m) || Gone(after, m))
  {
    match op
    case DeleteOp(id, permanent) => DeleteEffect(db, id, permanent, now, m);
    case MoveOp(ids, notebookId) => MovedEffect(db, ids, notebookId, now, m);
    case RestoreOp(id) => TrashEffect(db, id, now, m);
    case MergedAway(id) => TrashEffect(db, id, now, m);
  }

  lemma RowEffect(env: Env, db: MemoDb, op: Op, now: nat, m: string) returns (md: string)
    requires Addressed(db.files, env.digest) && CollisionFree(env.digest) && TouchesRows(op)
    requires op.CreateOp? ==> op.id !in db.memos && op.id !in db.contents
    ensures var after := ApplyOther(env, db, op, now);
            && Grown(env, db.files, after.files)
            && (Kept(db, after, m) || (op.CreateOp? && op.id == m && Born(env, db, after, m, md)) || Gone(after, m))
  {
    if op.CreateOp? {
      md := CreateEffect(env, db, op.request, op.id, now, m);
    } else {
      md := "";
      StoredGrows(env, db.files, []);
      ExistingEffect(env, db, op, now, m);
    }
  }

  lemma OtherEffect(env: Env, db: MemoDb, op: Op, now: nat, m: string) returns (md: string)
    requires Addressed(db.files, env.digest) && CollisionFree(env.digest) && !IsSave(op)
    requires op.CreateOp? ==> op.id !in db.memos && op.id !in db.contents
    ensures var after := ApplyOther(env, db, op, now);
            && Grown(env, db.files, after.files)
            && (Kept(db, after, m) || (op.CreateOp? && op.id == m && Born(env, db, after, m, md)) || Gone(after, m))
  {
    md := "";
    if TouchesRows(op) {
      md := RowEffect(env, db, op, now, m);
    } else {
      StoredGrows(env, db.files, if op.Upload? then op.bytes else []);
    }
  }

  // ----- what every run keeps -----

  /** A snapshot of a past revision has the hash of the body at that revision. */
  ghost predicate Past(env: Env, snapshot: Snapshot, bodies: seq<string>) {
    1 <= snapshot.revision < |bodies| && snapshot.contentHash == HashOf(env, bodies[snapshot.revision - 1])
  }

  predicate After(a: Snapshot, b: Snapshot) {
    a.revision < b.revision && a.createdAt + 300 <= b.createdAt
  }

  /** Oldest first, and at least five minutes apart. */
  predicate Spaced(history: seq<Snapshot>) {
    forall i, j :: 0 <= i < j < |history| ==> After(history[i], history[j])
  }

  ghost predicate HistoryOk(env: Env, history: seq<Snapshot>, bodies: seq<string>) {
    Spaced(history) && forall i :: 0 <= i < |history| ==> Past(env, history[i], bodies)
  }

  /** A snapshot has the title and the tags of the row that was replaced at its revision. */
  predicate OfRow(snapshot: Snapshot, saves: seq<Saved>) {
    && 1 <= snapshot.revision <= |saves|
    && var row := saves[snapshot.revision - 1].replaced;
       row.revision == snapshot.revision && row.title == snapshot.title && row.tags == snapshot.tags
       && row.contentHash == snapshot.contentHash
  }

  predicate RowsOk(history: seq<Snapshot>, saves: seq<Saved>) {
    forall i :: 0 <= i < |history| ==> OfRow(history[i], saves)
  }

  /** Every body above the threshold that the memo ever had can still be loaded. */
  ghost predicate LargeKept(env: Env, files: Files, bodies: seq<string>) {
    forall i :: 0 <= i < |bodies| && SizeOf(bodies[i]) > env.threshold ==>
                  Load(files, HashOf(env, bodies[i])) == Some(Utf8.Encode(bodies[i]))
  }

  /** The request named this revision with this hash. */
  predicate Names(req: SaveRequest, revision: nat, hash: string) {
    if req.ifMatchEtag.Some? then ETag.Matches(req.ifMatchEtag.value, revision, hash)
    else req.baseRevision == Some(revision) && req.baseHash == Some(hash)
  }

  ghost predicate SaveOk(env: Env, saved: Saved, revision: nat, body: string, next: string) {
    && saved.req.Some? && saved.answer.Ok?
    && saved.answer.value.revision == revision + 1
    && saved.answer.value.contentHash == HashOf(env, next)
    && saved.answer.value.etag == ETag.Format(revision + 1, HashOf(env, next))
    && Names(saved.req.value, revision, HashOf(env, body))
  }

  /** The saves carry the revisions 2, 3, 4, …, each made from the one before. */
  ghost predicate SavesOk(env: Env, saves: seq<Saved>, bodies: seq<string>) {
    && |saves| == (if bodies == [] then 0 else |bodies| - 1)
    && forall i :: 0 <= i < |saves| ==> SaveOk(env, saves[i], i + 1, bodies[i], bodies[i + 1])
  }

  ghost predicate Inv(env: Env, s: Sys, m: string) {
    && Addressed(s.db.files, env.digest)
    && (m in s.db.memos <==> m in s.db.contents)
    && (m in s.db.memos ==> s.bodies != [] && Holds(env, s.db, m, s.bodies[|s.bodies| - 1], |s.bodies|))
    && HistoryOk(env, SnapshotsOf(s.db.snapshots, m), s.bodies)
    && RowsOk(SnapshotsOf(s.db.snapshots, m), s.saves)
    && LargeKept(env, s.db.files, s.bodies)
    && SavesOk(env, s.saves, s.bodies)
  }

  /** The memo is not there yet. */
  ghost predicate Start(env: Env, s: Sys, m: string) {
    && Addressed(s.db.files, env.digest)
    && m !in s.db.memos && m !in s.db.contents && m !in s.db.snapshots
    && s.bodies == [] && s.saves == []
  }

  lemma HoldsKept(env: Env, before: MemoDb, after: MemoDb, m: string, md: string, revision: nat)
    requires Holds(env, before, m, md, revision) && Kept(before, after, m) && Grown(env, before.files, after.files)
    ensures Holds(env, after, m, md, revision)
  {
  }

  lemma LargeStays(env: Env, files: Files, files': Files, bodies: seq<string>)
    requires LargeKept(env, files, bodies) && Grown(env, files, files')
    ensures LargeKept(env, files', bodies)
  {
  }

  lemma KeptInv(env: Env, s: Sys, after: MemoDb, m: string)
    requires Inv(env, s, m) && Kept(s.db, after, m) && Grown(env, s.db.files, after.files)
    ensures Inv(env, s.(db := after), m)
  {
    if m in s.db.memos {
      HoldsKept(env, s.db, after, m, s.bodies[|s.bodies| - 1], |s.bodies|);
    }
    LargeStays(env, s.db.files, after.files, s.bodies);
  }

  lemma GoneInv(env: Env, s: Sys, after: MemoDb, m: string)
    requires Inv(env, s, m) && Gone(after, m) && Grown(env, s.db.files, after.files)
    ensures Inv(env, s.(db := after), m)
  {
    LargeStays(env, s.db.files, after.files, s.bodies);
  }

  lemma BornInv(env: Env, s: Sys, after: MemoDb, m: string, md: string)
    requires Inv(env, s, m) && s.bodies == [] && Born(env, s.db, after, m, md) && Grown(env, s.db.files, after.files)
    ensures Inv(env, Sys(after, [md], s.saves), m)
  {
  }

  lemma {:induction false} LatestIsLast(history: seq<Snapshot>)
    requires Spaced(history)
    ensures Latest(history) == if history == [] then None else Some(history[|history| - 1])
  {
    if history == [] {
    } else {
      LatestIsLast(history[..|history| - 1]);
      assert |history| > 1 ==> After(history[|history| - 2], history[|history| - 1]);
    }
  }

  lemma LongerBodies(env: Env, history: seq<Snapshot>, bodies: seq<string>, md: string)
    requires HistoryOk(env, history, bodies)
    ensures HistoryOk(env, history, bodies + [md])
  {
    forall i | 0 <= i < |history| ensures Past(env, history[i], bodies + [md]) {
      assert Past(env, history[i], bodies);
    }
  }

  lemma LongerSpaced(history: seq<Snapshot>, s: Snapshot)
    requires Spaced(history) && (history != [] ==> After(history[|history| - 1], s))
    ensures Spaced(history + [s])
  {
    var h, n := history + [s], |history|;
    forall i, j | 0 <= i < j < |h| ensures After(h[i], h[j]) {
      if j == n && i < n - 1 {
        assert After(history[i], history[n - 1]);
      }
    }
  }

  lemma SnapshotKeepsHistory(env: Env, history: seq<Snapshot>, bodies: seq<string>, memo: Memo, sid: string, now: nat, md: string)
    requires HistoryOk(env, history, bodies) && bodies != []
    requires memo.revision == |bodies| && memo.contentHash == HashOf(env, bodies[|bodies| - 1])
    ensures HistoryOk(env, MaybeSnapshot(history, memo, sid, now), bodies + [md])
  {
    LatestIsLast(history);
    LongerBodies(env, history, bodies, md);
    var s := Snapshot(sid, memo.revision, memo.title, memo.tags, memo.contentHash, now);
    assert Past(env, s, bodies + [md]);
    if MaybeSnapshot(history, memo, sid, now) != history {
      if history != [] {
        assert Past(env, history[|history| - 1], bodies);
      }
      LongerSpaced(history, s);
    }
  }

  lemma SnapshotOfRow(history: seq<Snapshot>, saves: seq<Saved>, memo: Memo, sid: string, now: nat, saved: Saved)
    requires RowsOk(history, saves) && memo.revision == |saves| + 1 && saved.replaced == memo
    ensures RowsOk(MaybeSnapshot(history, memo, sid, now), saves + [saved])
  {
    var s := Snapshot(sid, memo.revision, memo.title, memo.tags, memo.contentHash, now);
    assert OfRow(s, saves + [saved]);
    forall i | 0 <= i < |history| ensures OfRow(history[i], saves + [saved]) {
      assert OfRow(history[i], saves);
    }
  }

  lemma AdvancedInv(env: Env, s: Sys, after: MemoDb, m: string, md: string, sid: string, now: nat, saved: Saved)
    requires Inv(env, s, m) && Advanced(env, s.db, after, m, md, sid, now) && Grown(env, s.db.files, after.files)
    requires SaveOk(env, saved, |s.bodies|, s.bodies[|s.bodies| - 1], md) && saved.replaced == s.db.memos[m]
    ensures Inv(env, Sys(after, s.bodies + [md], s.saves + [saved]), m)
  {
    SnapshotKeepsHistory(env, SnapshotsOf(s.db.snapshots, m), s.bodies, s.db.memos[m], sid, now, md);
    SnapshotOfRow(SnapshotsOf(s.db.snapshots, m), s.saves, s.db.memos[m], sid, now, saved);
    LargeStays(env, s.db.files, after.files, s.bodies);
  }

  lemma NamesWhatItMatched(memo: Memo, req: SaveRequest)
    requires Precondition(memo, req).None? && req.body.Some?
    ensures Names(req, memo.revision, memo.contentHash)
  {
  }

  /** A save that brings a new body, as the observer sees it. */
  lemma AdvancedStep(env: Env, s: Sys, m: string, op: Op, now: nat, after: MemoDb, r: Result<Ack>, md: string)
    requires Inv(env, s, m) && IsSave(op) && RequestOf(s.db, op).Some? && (after, r) == SaveResult(env, s.db, op, now)
    requires Advanced(env, s.db, after, m, md, op.snapshotId, now) && Grown(env, s.db.files, after.files)
    requires RequestOf(s.db, op).value.body.Some? && Precondition(s.db.memos[m], RequestOf(s.db, op).value).None?
    requires r == Ok(AckOf(after.memos[m], RequestOf(s.db, op).value, now))
    ensures Inv(env, Observe(env, s, m, op, now, after), m)
  {
    NamesWhatItMatched(s.db.memos[m], RequestOf(s.db, op).value);
    AdvancedInv(env, s, after, m, md, op.snapshotId, now, Saved(RequestOf(s.db, op), r, s.db.memos[m]));
  }

  lemma SaveStep(env: Env, s: Sys, m: string, op: Op, now: nat)
    requires Inv(env, s, m) && CollisionFree(env.digest) && IsSave(op)
    ensures Inv(env, Observe(env, s, m, op, now, SaveResult(env, s.db, op, now).0), m)
  {
    var (after, r) := SaveResult(env, s.db, op, now);
    var md := SavingEffect(env, s.db, op, now, m);
    if RequestOf(s.db, op).None? {
    } else if Kept(s.db, after, m) {
      KeptInv(env, s, after, m);
    } else {
      AdvancedStep(env, s, m, op, now, after, r, md);
    }
  }

  lemma OtherStep(env: Env, s: Sys, m: string, op: Op, now: nat)
    requires Inv(env, s, m) && CollisionFree(env.digest) && !IsSave(op) && Enabled(s, m, op)
    ensures Inv(env, Observe(env, s, m, op, now, ApplyOther(env, s.db, op, now)), m)
  {
    var after := ApplyOther(env, s.db, op, now);
    var md := OtherEffect(env, s.db, op, now, m);
    if Kept(s.db, after, m) {
      KeptInv(env, s, after, m);
    } else if Gone(after, m) {
      GoneInv(env, s, after, m);
    } else {
      BornInv(env, s, after, m, md);
    }
  }

  lemma StepInv(env: Env, s: Sys, m: string, op: Op, now: nat)
    requires Inv(env, s, m) && CollisionFree(env.digest)
    ensures Inv(env, Step(env, s, m, op, now), m)
  {
    if Enabled(s, m, op) {
      if IsSave(op) {
        SaveStep(env, s, m, op, now);
      } else {
        OtherStep(env, s, m, op, now);
      }
    }
  }

  lemma {:induction false} RunInv(env: Env, s: Sys, m: string, ops: seq<(Op, nat)>)
    requires Start(env, s, m) && CollisionFree(env.digest)
    ensures Inv(env, Run(env, s, m, ops), m)
  {
    if ops == [] {
    } else {
      RunInv(env, s, m, ops[..|ops| - 1]);
      StepInv(env, Run(env, s, m, ops[..|ops| - 1]), m, ops[|ops| - 1].0, ops[|ops| - 1].1);
    }
  }
}
