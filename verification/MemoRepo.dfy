/** `memos.rs`: the repository whose methods update the memo tables in place. */
module MemoRepos {
  import opened Domain
  import opened Words
  import ETag
  import Markdown
  import Utf8
  import opened Records
  import opened SyncLog
  import opened SyncRepos
  import opened BlobStores
  import opened Memos

  class MemoRepo {
    var memos: map<string, Memo>
    var contents: map<string, Content>
    var snapshots: map<string, seq<Snapshot>>
    var keys: map<string, KeyRow>
    var leases: map<string, Lease>
    var resources: set<string>
    var notebooks: set<string>
    const sync: SyncRepo
    const blobs: BlobStore
    const patch: (string, string) -> Option<string>
    const threshold: nat

    ghost function State(): MemoDb
      reads this, sync, blobs
    {
      MemoDb(memos, contents, snapshots, keys, leases, blobs.files, resources, notebooks, sync.State())
    }

    ghost function Environment(): Env
      reads this, blobs
    {
      Env(blobs.digest, patch, threshold)
    }

    ghost predicate Valid()
      reads this, sync
    {
      ValidLog(sync.State())
    }

    constructor (sync: SyncRepo, blobs: BlobStore, patch: (string, string) -> Option<string>, threshold: nat,
                 notebooks: set<string>)
      ensures this.sync == sync && this.blobs == blobs && this.patch == patch && this.threshold == threshold
      ensures State() == MemoDb(map[], map[], map[], map[], map[], blobs.files, {}, notebooks, sync.State())
    {
      memos, contents, snapshots, keys, leases := map[], map[], map[], map[], map[];
      resources, this.notebooks := {}, notebooks;
      this.sync, this.blobs, this.patch, this.threshold := sync, blobs, patch, threshold;
    }

    /** Appends one row about a memo. */
    method Append(id: string, operation: string, kind: string, payload: Payload, now: nat)
      requires ValidLog(sync.State()) && sync.lastId + 1 < I63
      modifies sync
      ensures sync.State() == Announce(old(sync.State()), id, operation, kind, payload, now)
      ensures ValidLog(sync.State()) && sync.lastId == old(sync.lastId) + 1
    {
      var _ := sync.Append("memo", id, operation, kind, payload, "memo:" + id + ":" + kind, now);
    }

    /** Puts a large body into the blob store and returns the content row for it. */
    method StoreBody(markdown: string, revision: nat) returns (c: Content)
      modifies blobs
      ensures c == ContentFor(Environment(), markdown, revision)
      ensures blobs.files == FilesWith(Environment(), old(blobs.files), markdown)
    {
      var bytes := Utf8.Encode(markdown);
      var hash := blobs.digest(bytes);
      var inlineBody, blobRef := Some(markdown), None;
      if |bytes| > threshold {
        var h, _ := blobs.Put(bytes);
        inlineBody, blobRef := None, Some(h);
      }
      c := Content(revision, hash, inlineBody, blobRef, |bytes|);
    }

    method CreateMemo(req: NewMemo, id: string, now: nat) returns (r: Result<Memo>)
      requires Valid() && sync.lastId + 1 < I63
      modifies this`memos, this`contents, sync, blobs
      ensures (State(), r) == Create(Environment(), old(State()), req, id, now) && Valid()
    {
      if req.notebookId !in notebooks {
        return Err(NotFound);
      }
      var normalized := Markdown.Normalize(req.markdown);
      var content := StoreBody(normalized, 1);
      var etag := ETag.Format(1, content.contentHash);
      var memo := Memo(id, req.notebookId, req.title, req.tags, false, false, false, 1, content.contentHash, etag, now, None);
      memos := memos[id := memo];
      contents := contents[id := content];
      Append(id, "upsert", "content", MemoEtag(id, etag), now);
      r := Ok(memo);
    }

    method GetIdempotency(key: string, now: nat) returns (ack: Option<Ack>)
      ensures ack == Remembered(keys, key, now)
    {
      if key in keys {
        var row := keys[key];
        if row.expiresAt > now {
          return Some(row.ack);
        }
      }
      ack := None;
    }

    method LoadBlobText(hash: string) returns (r: Result<string>)
      ensures r == LoadText(blobs.files, hash)
    {
      var bytes :- blobs.Get(hash);
      match Utf8.Decode(bytes)
      case None => return Err(Internal);
      case Some(text) => return Ok(text);
    }

    method ReadBody(id: string) returns (r: Result<string>)
      ensures r == ReadMarkdown(State(), id)
    {
      if id !in memos || id !in contents {
        return Err(NotFound);
      }
      var row := contents[id];
      if row.inline.Some? {
        return Ok(row.inline.value);
      }
      if row.blobRef.None? {
        return Err(Internal);
      }
      r := LoadBlobText(row.blobRef.value);
    }

    method CheckPrecondition(memo: Memo, req: SaveRequest) returns (conflict: Option<ErrorCode>)
      ensures conflict == Precondition(memo, req)
    {
      match req.ifMatchEtag {
        case Some(etag) =>
          if !ETag.Matches(etag, memo.revision, memo.contentHash) {
            return Some(RevisionConflict);
          }
        case None =>
          match (req.baseRevision, req.baseHash) {
            case (Some(rev), Some(hash)) =>
              if rev != memo.revision || hash != memo.contentHash {
                return Some(ContentConflict);
              }
            case _ =>
              if req.body.Some? {
                return Some(PreconditionFailed);
              }
          }
      }
      conflict := None;
    }

    method CheckSave(req: SaveRequest, now: nat) returns (refusal: Option<ErrorCode>)
      ensures refusal == Refusal(State(), req, now)
    {
      if req.memoId !in memos {
        return Some(NotFound);
      }
      var conflict := CheckPrecondition(memos[req.memoId], req);
      if conflict.Some? {
        return conflict;
      }
      if req.leaseId.Some? {
        var l := req.leaseId.value;
        if l !in leases || leases[l].memoId != req.memoId || leases[l].actorId != req.actorId || leases[l].expiresAt <= now {
          return Some(LeaseConflict);
        }
      }
      if req.notebookId.Some? && req.notebookId.value !in notebooks {
        return Some(NotFound);
      }
      if req.memoId !in contents {
        return Some(NotFound);
      }
      refusal := None;
    }

    method RequestedBody(row: Content, body: SaveBody) returns (r: Result<string>)
      ensures r == Requested(Environment(), State(), row, body)
    {
      match body
      case MarkdownFull(md) =>
        return Ok(md);
      case MarkdownPatch(p) =>
        var base := "";
        if row.inline.Some? {
          base := row.inline.value;
        } else if row.blobRef.Some? {
          base :- LoadBlobText(row.blobRef.value);
        }
        match patch(base, p) {
          case None => return Err(InvalidArgument);
          case Some(md) => return Ok(md);
        }
      case ContentHashOnly(hash) =>
        if !(exists id :: id in contents && id in memos && contents[id].blobRef == Some(hash)) && hash !in resources {
          return Err(NotFound);
        }
        r := LoadBlobText(hash);
    }

    /** `SELECT created_at … ORDER BY revision DESC LIMIT 1`, then the insert. */
    method TakeSnapshot(memoId: string, memo: Memo, snapshotId: string, now: nat)
      modifies this`snapshots
      ensures snapshots == old(snapshots)[memoId := MaybeSnapshot(SnapshotsOf(old(snapshots), memoId), memo, snapshotId, now)]
    {
      var history := if memoId in snapshots then snapshots[memoId] else [];
      var latest: Option<Snapshot> := None;
      for i := 0 to |history|
        invariant latest == Latest(history[..i])
      {
        assert history[..i + 1][..i] == history[..i];
        if latest.None? || history[i].revision >= latest.value.revision {
          latest := Some(history[i]);
        }
      }
      assert history[..|history|] == history;
      if latest.None? || now - latest.value.createdAt >= SNAPSHOT_AGE {
        history := history + [Snapshot(snapshotId, memo.revision, memo.title, memo.tags, memo.contentHash, now)];
      }
      snapshots := snapshots[memoId := history];
    }

    /** Writes the memo row, the lease, the idempotency row and the change. */
    method Commit(req: SaveRequest, memo: Memo, kind: string, now: nat) returns (ack: Ack)
      requires Valid() && sync.lastId + 1 < I63
      modifies this`memos, this`leases, this`keys, sync
      ensures State() == Committed(old(State()), req, memo, kind, now) && Valid()
      ensures ack == AckOf(memo, req, now)
    {
      memos := memos[req.memoId := memo];
      if req.leaseId.Some? && req.leaseId.value in leases {
        var lease := leases[req.leaseId.value];
        leases := leases[req.leaseId.value := lease.(baseRevision := memo.revision, baseHash := memo.contentHash)];
      }
      ack := Ack(memo.revision, memo.contentHash, memo.etag, req.leaseId, now);
      if req.key !in keys {
        keys := keys[req.key := KeyRow(req.memoId, ack, now + DAY)];
      }
      Append(req.memoId, "upsert", kind, MemoEtag(req.memoId, memo.etag), now);
    }

    /** The memo's new row: what the request names, and the old values of what it leaves out. */
    method NextRow(memo: Memo, req: SaveRequest, revision: nat, hash: string, now: nat) returns (next: Memo)
      ensures next == Edited(memo, req, revision, hash, now)
    {
      var etag := ETag.Format(revision, hash);
      var title := memo.title;
      if req.title.Some? {
        title := req.title;
      }
      var tags := match req.tags case Some(t) => t case None => memo.tags;
      var pinned := match req.isPinned case Some(p) => p case None => memo.isPinned;
      var archived := match req.isArchived case Some(a) => a case None => memo.isArchived;
      var notebook := match req.notebookId case Some(n) => n case None => memo.notebookId;
      next := Memo(memo.id, notebook, title, tags, pinned, archived, memo.isDeleted, revision, hash, etag, now, memo.deletedAt);
    }

    /** Stores a new body of an existing memo, keeping the old version if a snapshot is due. */
    method WriteContent(memo: Memo, req: SaveRequest, md: string, snapshotId: string, now: nat) returns (ack: Ack)
      requires Valid() && sync.lastId + 1 < I63
      modifies this, sync, blobs
      ensures State() == SaveContent(Environment(), old(State()), memo, req, md, snapshotId, now) && Valid()
      ensures ack == AckOf(Edited(memo, req, memo.revision + 1, HashOf(Environment(), md), now), req, now)
    {
      var revision := memo.revision + 1;
      TakeSnapshot(req.memoId, memo, snapshotId, now);
      var content := StoreBody(md, revision);
      contents := contents[req.memoId := content];
      var next := NextRow(memo, req, revision, content.contentHash, now);
      ack := Commit(req, next, "content", now);
    }

    method SaveMemo(req: SaveRequest, snapshotId: string, now: nat) returns (r: Result<Ack>)
      requires Valid() && sync.lastId + 1 < I63
      modifies this, sync, blobs
      ensures (State(), r) == Save(Environment(), old(State()), req, snapshotId, now) && Valid()
    {
      if req.key == "" {
        return Err(InvalidArgument);
      }
      var known := GetIdempotency(req.key, now);
      if known.Some? {
        return Ok(known.value);
      }
      var refusal := CheckSave(req, now);
      if refusal.Some? {
        return Err(refusal.value);
      }
      var memo := memos[req.memoId];
      var ack: Ack;
      if req.body.Some? {
        var requested :- RequestedBody(contents[req.memoId], req.body.value);
        ack := WriteContent(memo, req, Markdown.Normalize(requested), snapshotId, now);
      } else if NothingToSave(req) {
        return Err(InvalidArgument);
      } else {
        var next := NextRow(memo, req, memo.revision, memo.contentHash, now);
        ack := Commit(req, next, "meta", now);
      }
      r := Ok(ack);
    }

    method SoftDelete(id: string, permanent: bool, now: nat)
      requires Valid() && sync.lastId + 1 < I63
      modifies this, sync
      ensures State() == Delete(old(State()), id, permanent, now) && Valid()
    {
      if permanent {
        memos, contents, snapshots := memos - {id}, contents - {id}, snapshots - {id};
        leases := map l | l in leases && leases[l].memoId != id :: leases[l];
        Append(id, "delete", "delete", NoPayload, now);
      } else {
        if id in memos {
          memos := memos[id := memos[id].(isDeleted := true, deletedAt := Some(now), updatedAt := now)];
        }
        Append(id, "upsert", "meta", MemoDeleted(id, true), now);
      }
    }

    method RestoreMemo(id: string, now: nat)
      requires Valid() && sync.lastId + 1 < I63
      modifies this`memos, sync
      ensures State() == Restore(old(State()), id, now) && Valid()
    {
      if id in memos {
        memos := memos[id := memos[id].(isDeleted := false, deletedAt := None, updatedAt := now)];
      }
      Append(id, "upsert", "meta", MemoDeleted(id, false), now);
    }

    method MoveMemos(ids: seq<string>, notebookId: string, now: nat) returns (r: Result<nat>)
      requires Valid() && sync.lastId + |ids| < I63
      modifies this`memos, sync
      ensures (State(), r) == BatchMove(old(State()), ids, notebookId, now) && Valid()
    {
      if notebookId !in notebooks {
        return Err(NotFound);
      }
      var n := 0;
      ghost var before := State();
      for i := 0 to |ids|
        invariant State() == MoveAll(before, ids[..i], notebookId, now) && Valid()
        invariant n == Existing(before.memos, ids[..i]) && memos.Keys == before.memos.Keys
        invariant sync.lastId <= before.log.lastId + i
      {
        assert ids[..i + 1][..i] == ids[..i];
        var id := ids[i];
        if id in memos {
          memos := memos[id := memos[id].(notebookId := notebookId, updatedAt := now)];
          n := n + 1;
          Append(id, "upsert", "meta", MemoMoved(id, notebookId), now);
        }
      }
      assert ids[..|ids|] == ids;
      r := Ok(n);
    }

    method RestoreRevisionOf(actorId: string, memoId: string, revisionId: string, key: string, snapshotId: string, now: nat)
      returns (r: Result<Ack>)
      requires Valid() && sync.lastId + 1 < I63
      modifies this, sync, blobs
      ensures (State(), r) == RestoreRevision(Environment(), old(State()), actorId, memoId, revisionId, key, snapshotId, now)
      ensures Valid()
    {
      if memoId !in memos {
        return Err(NotFound);
      }
      var summary := memos[memoId];
      var found := FindSnapshot(SnapshotsOf(snapshots, memoId), revisionId);
      if found.None? {
        return Err(NotFound);
      }
      var snapshot := found.value;
      var loaded := blobs.Get(snapshot.contentHash);
      var bytes: Bytes;
      if loaded.Ok? {
        bytes := loaded.value;
      } else if memoId in contents && contents[memoId].contentHash == snapshot.contentHash && contents[memoId].inline.Some? {
        bytes := Utf8.Encode(contents[memoId].inline.value);
      } else {
        return Err(NotFound);
      }
      var decoded := Utf8.Decode(bytes);
      if decoded.None? {
        return Err(Internal);
      }
      var req := SaveRequest(actorId, memoId, Some(summary.etag), None, None, None, key, Some(MarkdownFull(decoded.value)),
                             snapshot.title, Some(snapshot.tags), None, None, None);
      r := SaveMemo(req, snapshotId, now);
    }
  }
}
