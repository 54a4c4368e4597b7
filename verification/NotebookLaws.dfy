/** What each notebook operation leaves in the table and tells the replicas, said without its own helpers. */
module NotebookLaws {
  import opened Domain
  import opened Text
  import opened Records
  import opened SyncLog
  import opened Notebooks
  import opened NotebookRuns

  /** One more change, about this notebook. */
  predicate LoggedOne(before: Log, after: Log, id: string, operation: string, kind: string, payload: Payload, now: nat) {
    && after.rows ==
       before.rows + [Change(before.lastId + 1, "notebook", id, operation, kind, payload, "notebook:" + id, now)]
    && after.lastId == before.lastId + 1 && after.devices == before.devices && after.epochRow == before.epochRow
  }

  /** A new notebook has the name, parent and position given and stands below its parent, which may be in the trash. */
  lemma CreateStores(db: NotebookDb, name: string, parent: Option<string>, order: int, id: string, now: nat)
    ensures var (after, r) := Create(db, name, parent, order, id, now);
            && (r.Ok? <==> parent.None? || parent.value in db.notebooks)
            && (r.Err? ==> after == db && r.code == NotFound)
            && (r.Ok? ==>
                  && after.notebooks == db.notebooks[id := r.value]
                  && r.value == Notebook(id, parent, name, None,
                                         if parent.None? then "/" + id else db.notebooks[parent.value].path + "/" + id,
                                         if parent.None? then 0 else db.notebooks[parent.value].depth + 1,
                                         order, false, now)
                  && LoggedOne(db.log, after.log, id, "upsert", "meta", NotebookMeta(id, Some(name), parent), now))
  {
  }

  /** A rename goes through exactly for a live notebook that is not the inbox and a visible name; it sets the trimmed name
      and nothing else. */
  lemma RenameIff(db: NotebookDb, id: string, name: string, now: nat)
    ensures var (after, r) := Rename(db, id, name, now);
            && (r.Ok? <==> id in db.notebooks && !db.notebooks[id].isDeleted && db.notebooks[id].slug != Some("inbox") && !Blank(name))
            && (r.Err? ==>
                  after == db && r.code == if id !in db.notebooks || db.notebooks[id].isDeleted then NotFound else InvalidArgument)
            && (r.Ok? ==>
                  && r.value == db.notebooks[id].(name := Trim(name), updatedAt := now)
                  && after.notebooks == db.notebooks[id := r.value]
                  && LoggedOne(db.log, after.log, id, "upsert", "meta", NotebookMeta(id, Some(Trim(name)), None), now))
  {
    var _, _ := TrimIs(name);
  }

  /** A delete goes through exactly for a notebook that is not the inbox and holds no live memo; it marks the row and
      nothing else, and its change is a delete. */
  lemma DeleteIff(db: NotebookDb, id: string, liveMemos: nat, now: nat)
    ensures var (after, r) := SoftDelete(db, id, liveMemos, now);
            && (r.Ok? <==> id in db.notebooks && db.notebooks[id].slug != Some("inbox") && liveMemos == 0)
            && (r.Err? ==> after == db && r.code == if id !in db.notebooks then NotFound else InvalidArgument)
            && (r.Ok? ==>
                  && after.notebooks == db.notebooks[id := db.notebooks[id].(isDeleted := true, updatedAt := now)]
                  && LoggedOne(db.log, after.log, id, "delete", "delete", NoPayload, now))
  {
  }

  /** A reorder tells the replicas every position, in order. */
  lemma {:induction false} ReorderTells(log: Log, parent: Option<string>, ids: seq<string>, now: nat)
    ensures var after := PlacedLog(log, parent, ids, now);
            && after.lastId == log.lastId + |ids| && |after.rows| == |log.rows| + |ids|
            && after.rows[..|log.rows|] == log.rows && after.devices == log.devices && after.epochRow == log.epochRow
            && forall i :: 0 <= i < |ids| ==>
                 after.rows[|log.rows| + i] == Change(log.lastId + i + 1, "notebook", ids[i], "upsert", "meta",
                                                      NotebookOrder(ids[i], parent, i), "notebook:" + ids[i], now)
  {
    if ids == [] {
    } else {
      ReorderTells(log, parent, ids[..|ids| - 1], now);
    }
  }

  /** The live children of `parent`, or the live roots. */
  predicate LiveChild(t: Table, parent: Option<string>, id: string) {
    id in t && t[id].parentId == parent && !t[id].isDeleted
  }

  /** A reorder is accepted exactly when it lists every live child of the parent once and nothing else; each then has its
      place in the list, and every other row is as before. */
  lemma ReorderIff(db: NotebookDb, parent: Option<string>, ids: seq<string>, now: nat, id: string)
    ensures var (after, r) := Reorder(db, parent, ids, now);
            && (r.Ok? <==> (forall i, j :: 0 <= i < j < |ids| ==> ids[i] != ids[j])
                           && forall x :: x in ids <==> LiveChild(db.notebooks, parent, x))
            && (r.Err? ==> after == db && r.code == InvalidArgument)
            && (r.Ok? && id in db.notebooks ==>
                  id in after.notebooks
                  && if LiveChild(db.notebooks, parent, id) then
                       var place := after.notebooks[id].sortOrder;
                       0 <= place < |ids| && ids[place] == id
                       && after.notebooks[id] == db.notebooks[id].(sortOrder := place, updatedAt := now)
                     else after.notebooks[id] == db.notebooks[id])
  {
    AcceptedIff(db, parent, ids, now);
    assert forall x :: LiveChild(db.notebooks, parent, x) <==> IsSibling(db.notebooks, parent, x);
    if Reorder(db, parent, ids, now).1.Ok? && id in db.notebooks {
      ReorderSorts(db, parent, ids, now, id);
    }
  }

  /** A position that is not given is the first behind all live children of the parent, 0 without any. */
  lemma NextOrderIs(t: Table, parent: Option<string>, n: int)
    requires IsNextOrder(t, parent, n)
    ensures forall id :: LiveChild(t, parent, id) ==> t[id].sortOrder < n
    ensures if exists id :: LiveChild(t, parent, id) then exists id :: LiveChild(t, parent, id) && t[id].sortOrder == n - 1
            else n == 0
  {
    forall id ensures LiveChild(t, parent, id) <==> IsSibling(t, parent, id) {
    }
  }
}
