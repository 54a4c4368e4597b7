/** `memos.rs`: versioned memos whose bodies are inline or content-addressed, with idempotent saves and snapshots. */
module Memos {
  import opened Domain
  import opened Words
  import ETag
  import Markdown
  import Utf8
  import opened Records
  import opened SyncLog
  import opened BlobStores

  datatype Memo = Memo(
    id: string,
    notebookId: string,
    title: Option<string>,
    tags: seq<string>,
    isPinned: bool,
    isArchived: bool,
    isDeleted: bool,
    revision: nat,
    contentHash: string,
    etag: string,
    updatedAt: nat,
    deletedAt: Option<nat>)

  /** A row of `memo_contents`. */
  datatype Content = Content(
    revision: nat,
    contentHash: string,
    inline: Option<string>,
    blobRef: Option<string>,
    byteSize: nat)

  /** A row of `memo_revisions`. */
  datatype Snapshot = Snapshot(
    id: string,
    revision: nat,
    title: Option<string>,
    tags: seq<string>,
    contentHash: string,
    createdAt: nat)

  datatype Lease = Lease(memoId: string, actorId: string, baseRevision: nat, baseHash: string, expiresAt: nat)

  datatype Ack = Ack(revision: nat, contentHash: string, etag: string, leaseId: Option<string>, savedAt: nat)

  /** A row of `idempotency_keys`. */
  datatype KeyRow = KeyRow(memoId: string, ack: Ack, expiresAt: nat)

  /** The tables of one workspace and the blob files; `resources` holds the hashes of its live resources and
      `notebooks` the ids of its live notebooks. */
  datatype MemoDb = MemoDb(
    memos: map<string, Memo>,
    contents: map<string, Content>,
    snapshots: map<string, seq<Snapshot>>,
    keys: map<string, KeyRow>,
    leases: map<string, Lease>,
    files: Files,
    resources: set<string>,
    notebooks: set<string>,
    log: Log)

  /** The hash, the patch library and the largest body that is kept inline. */
  datatype Env = Env(digest: Digest, patch: (string, string) -> Option<string>, threshold: nat)

  datatype SaveBody =
    | MarkdownFull(markdown: string)
    | MarkdownPatch(patch: string)
    | ContentHashOnly(hash: string)

  datatype SaveRequest = SaveRequest(
    actorId: string,
    memoId: string,
    ifMatchEtag: Option<string>,
    baseRevision: Option<nat>,
    baseHash: Option<string>,
    leaseId: Option<string>,
    key: string,
    body: Option<SaveBody>,
    title: Option<string>,
    tags: Option<seq<string>>,
    isPinned: Option<bool>,
    isArchived: Option<bool>,
    notebookId: Option<string>)

  const DAY: nat := 86400
  const SNAPSHOT_AGE: nat := 300

  // ----- bodies -----

  function HashOf(env: Env, markdown: string): string {
    env.digest(Utf8.Encode(markdown))
  }

  function SizeOf(markdown: string): nat {
    |Utf8.Encode(markdown)|
  }

  function LoadText(files: Files, hash: string): Result<string> {
    match Load(files, hash)
    case None => Err(NotFound)
    case Some(bytes) =>
      match Utf8.Decode(bytes)
      case None => Err(Internal)
      case Some(text) => Ok(text)
  }

  /** `read_markdown`, given the content row. */
  function BodyOf(files: Files, c: Content): Result<string> {
    if c.inline.Some? then Ok(c.inline.value)
    else if c.blobRef.Some? then LoadText(files, c.blobRef.value)
    else Err(Internal)
  }

  /** Where a normalized body goes: inline up to the threshold, into the blob store above it. */
  function ContentFor(env: Env, markdown: string, revision: nat): Content {
    var hash := HashOf(env, markdown);
    if SizeOf(markdown) <= env.threshold then Content(revision, hash, Some(markdown), None, SizeOf(markdown))
    else Content(revision, hash, None, Some(hash), SizeOf(markdown))
  }

  function FilesWith(env: Env, files: Files, markdown: string): Files {
    if SizeOf(markdown) <= env.threshold then files else Stored(files, env.digest, Utf8.Encode(markdown))
  }

  // ----- log rows -----

  function MemoKey(id: string, kind: string): string {
    "memo:" + id + ":" + kind
  }

  function Announce(log: Log, id: string, operation: string, kind: string, payload: Payload, now: nat): Log {
    Appended(log, Change(0, "memo", id, operation, kind, payload, MemoKey(id, kind), now))
  }

  // ----- create -----

  datatype NewMemo = NewMemo(notebookId: string, title: Option<string>, markdown: string, tags: seq<string>)

  function Created(env: Env, req: NewMemo, id: string, now: nat): Memo {
    var hash := HashOf(env, Markdown.Normalize(req.markdown));
    Memo(id, req.notebookId, req.title, req.tags, false, false, false, 1, hash, ETag.Format(1, hash), now, None)
  }

  function Create(env: Env, db: MemoDb, req: NewMemo, id: string, now: nat): (MemoDb, Result<Memo>) {
    if req.notebookId !in db.notebooks then (db, Err(NotFound))
    else
      var md := Markdown.Normalize(req.markdown);
      var memo := Created(env, req, id, now);
      (db.(memos := db.memos[id := memo], contents := db.contents[id := ContentFor(env, md, 1)],
           files := FilesWith(env, db.files, md),
           log := Announce(db.log, id, "upsert", "content", MemoEtag(id, memo.etag), now)),
       Ok(memo))
  }

  // ----- save -----

  /** `get_idempotency`: an unexpired row answers for its key. */
  function Remembered(keys: map<string, KeyRow>, key: string, now: nat): Option<Ack> {
    if key in keys && keys[key].expiresAt > now then Some(keys[key].ack) else None
  }

  /** An insert whose primary-key conflict is discarded. */
  function Remember(keys: map<string, KeyRow>, key: string, memoId: string, ack: Ack, now: nat): map<string, KeyRow> {
    if key in keys then keys else keys[key := KeyRow(memoId, ack, now + DAY)]
  }

  /** The request names the version it was made from. */
  function Precondition(memo: Memo, req: SaveRequest): Option<ErrorCode> {
    if req.ifMatchEtag.Some? then
      if ETag.Matches(req.ifMatchEtag.value, memo.revision, memo.contentHash) then None else Some(RevisionConflict)
    else if req.baseRevision.Some? && req.baseHash.Some? then
      if req.baseRevision.value == memo.revision && req.baseHash.value == memo.contentHash then None
      else Some(ContentConflict)
    else if req.body.Some? then Some(PreconditionFailed)
    else None
  }

  predicate LeaseHolds(leases: map<string, Lease>, req: SaveRequest, now: nat) {
    req.leaseId.None?
    || (req.leaseId.value in leases
        && var lease := leases[req.leaseId.value];
           lease.memoId == req.memoId && lease.actorId == req.actorId && lease.expiresAt > now)
  }

  /** The checks between the idempotency lookup and the body. */
  function Refusal(db: MemoDb, req: SaveRequest, now: nat): Option<ErrorCode> {
    if req.memoId !in db.memos then Some(NotFound)
    else
      var conflict := Precondition(db.memos[req.memoId], req);
      if conflict.Some? then conflict
      else if !LeaseHolds(db.leases, req, now) then Some(LeaseConflict)
      else if req.notebookId.Some? && req.notebookId.value !in db.notebooks then Some(NotFound)
      else if req.memoId !in db.contents then Some(NotFound)
      else None
  }

  predicate CanAccessBlob(db: MemoDb, hash: string) {
    (exists id :: id in db.contents && id in db.memos && db.contents[id].blobRef == Some(hash)) || hash in db.resources
  }

  function PatchBase(files: Files, c: Content): Result<string> {
    if c.inline.None? && c.blobRef.None? then Ok("") else BodyOf(files, c)
  }

  /** The body the request asks for, before normalization. */
  function Requested(env: Env, db: MemoDb, c: Content, body: SaveBody): Result<string> {
    match body
    case MarkdownFull(md) => Ok(md)
    case MarkdownPatch(patch) =>
      (match PatchBase(db.files, c)
       case Err(e) => Err(e)
       case Ok(base) =>
         match env.patch(base, patch)
         case None => Err(InvalidArgument)
         case Some(md) => Ok(md))
    case ContentHashOnly(hash) => if !CanAccessBlob(db, hash) then Err(NotFound) else LoadText(db.files, hash)
  }

  predicate NothingToSave(req: SaveRequest) {
    req.body.None? && req.title.None? && req.tags.None? && req.isPinned.None? && req.isArchived.None? && req.notebookId.None?
  }

  function Edited(memo: Memo, req: SaveRequest, revision: nat, hash: string, now: nat): Memo {
    memo.(notebookId := req.notebookId.GetOr(memo.notebookId),
          title := if req.title.Some? then req.title else memo.title,
          tags := req.tags.GetOr(memo.tags),
          isPinned := req.isPinned.GetOr(memo.isPinned),
          isArchived := req.isArchived.GetOr(memo.isArchived),
          revision := revision,
          contentHash := hash,
          etag := ETag.Format(revision, hash),
          updatedAt := now)
  }

  function SnapshotsOf(snapshots: map<string, seq<Snapshot>>, id: string): seq<Snapshot> {
    if id in snapshots then snapshots[id] else []
  }

  /** `ORDER BY revision DESC LIMIT 1`. */
  function Latest(history: seq<Snapshot>): Option<Snapshot> {
    if history == [] then None
    else
      var last := history[|history| - 1];
      match Latest(history[..|history| - 1])
      case None => Some(last)
      case Some(best) => if best.revision > last.revision then Some(best) else Some(last)
  }

  /** Keeps the version about to be replaced, unless the latest snapshot is younger than five minutes. */
  function MaybeSnapshot(history: seq<Snapshot>, memo: Memo, id: string, now: nat): seq<Snapshot> {
    var latest := Latest(history);
    if latest.Some? && now - latest.value.createdAt < SNAPSHOT_AGE then history
    else history + [Snapshot(id, memo.revision, memo.title, memo.tags, memo.contentHash, now)]
  }

  function AckOf(memo: Memo, req: SaveRequest, now: nat): Ack {
    Ack(memo.revision, memo.contentHash, memo.etag, req.leaseId, now)
  }

  function Rebased(leases: map<string, Lease>, leaseId: Option<string>, revision: nat, hash: string): map<string, Lease> {
    if leaseId.Some? && leaseId.value in leases then
      leases[leaseId.value := leases[leaseId.value].(baseRevision := revision, baseHash := hash)]
    else leases
  }

  /** What every successful save stores once it knows the memo's new row. */
  function Committed(db: MemoDb, req: SaveRequest, memo: Memo, kind: string, now: nat): MemoDb {
    db.(memos := db.memos[req.memoId := memo],
        leases := Rebased(db.leases, req.leaseId, memo.revision, memo.contentHash),
        keys := Remember(db.keys, req.key, req.memoId, AckOf(memo, req, now), now),
        log := Announce(db.log, req.memoId, "upsert", kind, MemoEtag(req.memoId, memo.etag), now))
  }

  function SaveContent(env: Env, db: MemoDb, memo: Memo, req: SaveRequest, md: string, snapshotId: string, now: nat): MemoDb {
    var id := req.memoId;
    Committed(
      db.(contents := db.contents[id := ContentFor(env, md, memo.revision + 1)],
          files := FilesWith(env, db.files, md),
          snapshots := db.snapshots[id := MaybeSnapshot(SnapshotsOf(db.snapshots, id), memo, snapshotId, now)]),
      req, Edited(memo, req, memo.revision + 1, HashOf(env, md), now), "content", now)
  }

  function SaveMeta(db: MemoDb, memo: Memo, req: SaveRequest, now: nat): MemoDb {
    Committed(db, req, Edited(memo, req, memo.revision, memo.contentHash, now), "meta", now)
  }

  /** A save with a usable key that no unexpired row answers. */
  function SaveFresh(env: Env, db: MemoDb, req: SaveRequest, snapshotId: string, now: nat): (MemoDb, Result<Ack>) {
    var refusal := Refusal(db, req, now);
    if refusal.Some? then (db, Err(refusal.value))
    else
      var memo := db.memos[req.memoId];
      if req.body.Some? then
        var requested := Requested(env, db, db.contents[req.memoId], req.body.value);
        if requested.Err? then (db, Err(requested.code))
        else
          var md := Markdown.Normalize(requested.value);
          (SaveContent(env, db, memo, req, md, snapshotId, now),
           Ok(AckOf(Edited(memo, req, memo.revision + 1, HashOf(env, md), now), req, now)))
      else if NothingToSave(req) then (db, Err(InvalidArgument))
      else
        (SaveMeta(db, memo, req, now), Ok(AckOf(Edited(memo, req, memo.revision, memo.contentHash, now), req, now)))
  }

  function Save(env: Env, db: MemoDb, req: SaveRequest, snapshotId: string, now: nat): (MemoDb, Result<Ack>) {
    if req.key == "" then (db, Err(InvalidArgument))
    else
      var known := Remembered(db.keys, req.key, now);
      if known.Some? then (db, Ok(known.value)) else SaveFresh(env, db, req, snapshotId, now)
  }

  // ----- delete, restore, move -----

  function Without<T>(table: map<string, T>, id: string): map<string, T> {
    table - {id}
  }

  function LeasesWithout(leases: map<string, Lease>, id: string): map<string, Lease> {
    map l | l in leases && leases[l].memoId != id :: leases[l]
  }

  function Delete(db: MemoDb, id: string, permanent: bool, now: nat): MemoDb {
    if permanent then
      db.(memos := Without(db.memos, id), contents := Without(db.contents, id), snapshots := Without(db.snapshots, id),
          leases := LeasesWithout(db.leases, id), log := Announce(db.log, id, "delete", "delete", NoPayload, now))
    else
      db.(memos := if id in db.memos then
                     db.memos[id := db.memos[id].(isDeleted := true, deletedAt := Some(now), updatedAt := now)]
                   else db.memos,
          log := Announce(db.log, id, "upsert", "meta", MemoDeleted(id, true), now))
  }

  function Restore(db: MemoDb, id: string, now: nat): MemoDb {
    db.(memos := if id in db.memos then
                   db.memos[id := db.memos[id].(isDeleted := false, deletedAt := None, updatedAt := now)]
                 else db.memos,
        log := Announce(db.log, id, "upsert", "meta", MemoDeleted(id, false), now))
  }

  function MoveOne(db: MemoDb, id: string, notebookId: string, now: nat): MemoDb {
    if id in db.memos then
      db.(memos := db.memos[id := db.memos[id].(notebookId := notebookId, updatedAt := now)],
          log := Announce(db.log, id, "upsert", "meta", MemoMoved(id, notebookId), now))
    else db
  }

  function MoveAll(db: MemoDb, ids: seq<string>, notebookId: string, now: nat): MemoDb {
    if ids == [] then db
    else MoveOne(MoveAll(db, ids[..|ids| - 1], notebookId, now), ids[|ids| - 1], notebookId, now)
  }

  function BatchMove(db: MemoDb, ids: seq<string>, notebookId: string, now: nat): (MemoDb, Result<nat>) {
    if notebookId !in db.notebooks then (db, Err(NotFound))
    else (MoveAll(db, ids, notebookId, now), Ok(Existing(db.memos, ids)))
  }

  /** How many of the listed updates affect a row. */
  function Existing(memos: map<string, Memo>, ids: seq<string>): nat {
    if ids == [] then 0 else Existing(memos, ids[..|ids| - 1]) + (if ids[|ids| - 1] in memos then 1 else 0)
  }

  // ----- restore a revision -----

  function FindSnapshot(history: seq<Snapshot>, id: string): Option<Snapshot> {
    if history == [] then None
    else if history[0].id == id then Some(history[0])
    else FindSnapshot(history[1..], id)
  }

  /** The bytes of a snapshot: its blob, or the current inline body if that has the same hash. */
  function SnapshotBytes(db: MemoDb, memoId: string, hash: string): Result<Bytes> {
    match Load(db.files, hash)
    case Some(bytes) => Ok(bytes)
    case None =>
      if memoId in db.contents && db.contents[memoId].contentHash == hash && db.contents[memoId].inline.Some? then
        Ok(Utf8.Encode(db.contents[memoId].inline.value))
      else Err(NotFound)
  }

  /** The save that restoring a revision amounts to. */
  function RestoreRequest(db: MemoDb, actorId: string, memoId: string, revisionId: string, key: string): Result<SaveRequest> {
    if memoId !in db.memos then Err(NotFound)
    else
      match FindSnapshot(SnapshotsOf(db.snapshots, memoId), revisionId)
      case None => Err(NotFound)
      case Some(snapshot) =>
        match SnapshotBytes(db, memoId, snapshot.contentHash)
        case Err(e) => Err(e)
        case Ok(bytes) =>
          match Utf8.Decode(bytes)
          case None => Err(Internal)
          case Some(md) =>
            Ok(SaveRequest(actorId, memoId, Some(db.memos[memoId].etag), None, None, None, key, Some(MarkdownFull(md)),
                           snapshot.title, Some(snapshot.tags), None, None, None))
  }

  function RestoreRevision(env: Env, db: MemoDb, actorId: string, memoId: string, revisionId: string, key: string,
                           snapshotId: string, now: nat): (MemoDb, Result<Ack>)
  {
    match RestoreRequest(db, actorId, memoId, revisionId, key)
    case Err(e) => (db, Err(e))
    case Ok(req) => Save(env, db, req, snapshotId, now)
  }

  function ReadMarkdown(db: MemoDb, id: string): Result<string> {
    if id in db.memos && id in db.contents then BodyOf(db.files, db.contents[id]) else Err(NotFound)
  }
}
