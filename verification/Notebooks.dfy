/** `notebooks.rs`: the notebook forest with materialized paths and sibling order. */
module Notebooks {
  import opened Domain
  import opened Text
  import opened Records
  import opened SyncLog
  import opened SyncRepos

  datatype Notebook = Notebook(
    id: string,
    parentId: Option<string>,
    name: string,
    slug: Option<string>,
    path: string,
    depth: nat,
    sortOrder: int,
    isDeleted: bool,
    updatedAt: nat)

  type Table = map<string, Notebook>

  datatype NotebookDb = NotebookDb(notebooks: Table, log: Log)

  function FoldKey(id: string): string {
    "notebook:" + id
  }

  function Logged(log: Log, id: string, operation: string, kind: string, payload: Payload, now: nat): Log {
    Appended(log, Change(0, "notebook", id, operation, kind, payload, FoldKey(id), now))
  }

  // ----- create -----

  /** The row below `parent`, or a root. */
  function Planted(t: Table, name: string, slug: Option<string>, parent: Option<string>, order: int, id: string, now: nat)
    : Notebook
    requires parent.None? || parent.value in t
  {
    match parent
    case None => Notebook(id, None, name, slug, "/" + id, 0, order, false, now)
    case Some(p) => Notebook(id, parent, name, slug, t[p].path + "/" + id, t[p].depth + 1, order, false, now)
  }

  function Create(db: NotebookDb, name: string, parent: Option<string>, order: int, id: string, now: nat)
    : (NotebookDb, Result<Notebook>)
  {
    if parent.Some? && parent.value !in db.notebooks then (db, Err(NotFound))
    else
      var row := Planted(db.notebooks, name, None, parent, order, id, now);
      (NotebookDb(db.notebooks[id := row], Logged(db.log, id, "upsert", "meta", NotebookMeta(id, Some(name), parent), now)),
       Ok(row))
  }

  predicate IsSibling(t: Table, parent: Option<string>, id: string) {
    id in t && t[id].parentId == parent && !t[id].isDeleted
  }

  /** `COALESCE(MAX(sort_order), -1) + 1` over the live siblings. */
  ghost predicate IsNextOrder(t: Table, parent: Option<string>, n: int) {
    && (forall id :: IsSibling(t, parent, id) ==> t[id].sortOrder < n)
    && ((n == 0 && forall id :: !IsSibling(t, parent, id)) || exists id :: IsSibling(t, parent, id) && t[id].sortOrder == n - 1)
  }

  // ----- rename, delete -----

  function Rename(db: NotebookDb, id: string, name: string, now: nat): (NotebookDb, Result<Notebook>) {
    if id !in db.notebooks || db.notebooks[id].isDeleted then (db, Err(NotFound))
    else if db.notebooks[id].slug == Some("inbox") || Trim(name) == "" then (db, Err(InvalidArgument))
    else
      var row := db.notebooks[id].(name := Trim(name), updatedAt := now);
      (NotebookDb(db.notebooks[id := row],
                  Logged(db.log, id, "upsert", "meta", NotebookMeta(id, Some(Trim(name)), None), now)),
       Ok(row))
  }

  /** `liveMemos` counts the memos in the notebook that are not in the trash. */
  function SoftDelete(db: NotebookDb, id: string, liveMemos: nat, now: nat): (NotebookDb, Result<()>) {
    if id !in db.notebooks then (db, Err(NotFound))
    else if db.notebooks[id].slug == Some("inbox") || liveMemos > 0 then (db, Err(InvalidArgument))
    else
      (NotebookDb(db.notebooks[id := db.notebooks[id].(isDeleted := true, updatedAt := now)],
                  Logged(db.log, id, "delete", "delete", NoPayload, now)),
       Ok(()))
  }

  // ----- reorder -----

  function Siblings(t: Table, parent: Option<string>): set<string> {
    set id | id in t && IsSibling(t, parent, id)
  }

  function Members(ids: seq<string>): set<string> {
    set i | 0 <= i < |ids| :: ids[i]
  }

  /** The row with this id gets the next position. */
  function Placed(t: Table, ids: seq<string>, now: nat): Table {
    if ids == [] then t
    else
      var n := |ids| - 1;
      var before := Placed(t, ids[..n], now);
      if ids[n] in before then before[ids[n] := before[ids[n]].(sortOrder := n, updatedAt := now)] else before
  }

  function PlacedLog(log: Log, parent: Option<string>, ids: seq<string>, now: nat): Log {
    if ids == [] then log
    else
      var n := |ids| - 1;
      Logged(PlacedLog(log, parent, ids[..n], now), ids[n], "upsert", "meta", NotebookOrder(ids[n], parent, n), now)
  }

  /** Every live sibling exactly once. */
  predicate CompleteOrder(t: Table, parent: Option<string>, ids: seq<string>) {
    |Members(ids)| == |ids| && |Members(ids)| == |Siblings(t, parent)| && Siblings(t, parent) <= Members(ids)
  }

  function Reorder(db: NotebookDb, parent: Option<string>, ids: seq<string>, now: nat): (NotebookDb, Result<()>) {
    if !CompleteOrder(db.notebooks, parent, ids) then (db, Err(InvalidArgument))
    else (NotebookDb(Placed(db.notebooks, ids, now), PlacedLog(db.log, parent, ids, now)), Ok(()))
  }

  // ----- the repository -----

  class NotebookRepo {
    var notebooks: Table
    const sync: SyncRepo

    ghost function State(): NotebookDb
      reads this, sync
    {
      NotebookDb(notebooks, sync.State())
    }

    constructor (sync: SyncRepo)
      ensures this.sync == sync && State() == NotebookDb(map[], sync.State())
    {
      notebooks, this.sync := map[], sync;
    }

    method Append(id: string, operation: string, kind: string, payload: Payload, now: nat)
      requires ValidLog(sync.State()) && sync.lastId + 1 < I63
      modifies sync
      ensures sync.State() == Logged(old(sync.State()), id, operation, kind, payload, now)
      ensures ValidLog(sync.State()) && sync.lastId == old(sync.lastId) + 1
    {
      var _ := sync.Append("notebook", id, operation, kind, payload, "notebook:" + id, now);
    }

    method NextOrder(parent: Option<string>) returns (n: int)
      ensures IsNextOrder(notebooks, parent, n)
    {
      var found, rest := false, notebooks;
      n := 0;
      while |rest| > 0
        invariant forall id :: id in rest ==> id in notebooks && rest[id] == notebooks[id]
        invariant forall id :: IsSibling(notebooks, parent, id) && id !in rest ==> found && notebooks[id].sortOrder < n
        invariant found ==> exists id :: IsSibling(notebooks, parent, id) && notebooks[id].sortOrder == n - 1
        invariant !found ==> n == 0
        decreases |rest|
      {
        var id :| id in rest;
        if IsSibling(notebooks, parent, id) && (!found || notebooks[id].sortOrder >= n) {
          found, n := true, notebooks[id].sortOrder + 1;
        }
        rest := rest - {id};
      }
    }

    method CreateNotebook(name: string, parent: Option<string>, sortOrder: Option<int>, id: string, now: nat)
      returns (r: Result<Notebook>)
      requires ValidLog(sync.State()) && sync.lastId + 1 < I63
      modifies this`notebooks, sync
      ensures r.Err? ==> (State(), r) == Create(old(State()), name, parent, 0, id, now)
      ensures r.Ok? ==> (State(), r) == Create(old(State()), name, parent, r.value.sortOrder, id, now)
      ensures r.Ok? ==> if sortOrder.Some? then r.value.sortOrder == sortOrder.value
                        else IsNextOrder(old(notebooks), parent, r.value.sortOrder)
    {
      var path, depth := "/" + id, 0;
      if parent.Some? {
        if parent.value !in notebooks {
          return Err(NotFound);
        }
        var above := notebooks[parent.value];
        path, depth := above.path + "/" + id, above.depth + 1;
      }
      var order: int;
      if sortOrder.Some? {
        order := sortOrder.value;
      } else {
        order := NextOrder(parent);
      }
      var row := Notebook(id, parent, name, None, path, depth, order, false, now);
      notebooks := notebooks[id := row];
      Append(id, "upsert", "meta", NotebookMeta(id, Some(name), parent), now);
      r := Ok(row);
    }

    method RenameNotebook(id: string, name: string, now: nat) returns (r: Result<Notebook>)
      requires ValidLog(sync.State()) && sync.lastId + 1 < I63
      modifies this`notebooks, sync
      ensures (State(), r) == Rename(old(State()), id, name, now)
    {
      if id !in notebooks || notebooks[id].isDeleted {
        return Err(NotFound);
      }
      var row := notebooks[id];
      if row.slug == Some("inbox") {
        return Err(InvalidArgument);
      }
      var trimmed := Trim(name);
      if trimmed == "" {
        return Err(InvalidArgument);
      }
      row := row.(name := trimmed, updatedAt := now);
      notebooks := notebooks[id := row];
      Append(id, "upsert", "meta", NotebookMeta(id, Some(trimmed), None), now);
      r := Ok(row);
    }

    method SoftDeleteNotebook(id: string, liveMemos: nat, now: nat) returns (r: Result<()>)
      requires ValidLog(sync.State()) && sync.lastId + 1 < I63
      modifies this`notebooks, sync
      ensures (State(), r) == SoftDelete(old(State()), id, liveMemos, now)
    {
      if id !in notebooks {
        return Err(NotFound);
      }
      if notebooks[id].slug == Some("inbox") {
        return Err(InvalidArgument);
      }
      if liveMemos > 0 {
        return Err(InvalidArgument);
      }
      notebooks := notebooks[id := notebooks[id].(isDeleted := true, updatedAt := now)];
      Append(id, "delete", "delete", NoPayload, now);
      r := Ok(());
    }

    method ReorderNotebooks(parent: Option<string>, ids: seq<string>, now: nat) returns (r: Result<()>)
      requires ValidLog(sync.State()) && sync.lastId + |ids| < I63
      modifies this`notebooks, sync
      ensures (State(), r) == Reorder(old(State()), parent, ids, now)
    {
      var siblings, supplied := Siblings(notebooks, parent), Members(ids);
      if |supplied| != |ids| || |supplied| != |siblings| || !(siblings <= supplied) {
        return Err(InvalidArgument);
      }
      ghost var before := State();
      for i := 0 to |ids|
        invariant State() == NotebookDb(Placed(before.notebooks, ids[..i], now), before.log)
      {
        assert ids[..i + 1][..i] == ids[..i];
        if ids[i] in notebooks {
          notebooks := notebooks[ids[i] := notebooks[ids[i]].(sortOrder := i, updatedAt := now)];
        }
      }
      assert ids[..|ids|] == ids;
      for i := 0 to |ids|
        invariant notebooks == Placed(before.notebooks, ids, now)
        invariant sync.State() == PlacedLog(before.log, parent, ids[..i], now) && ValidLog(sync.State())
        invariant sync.lastId == before.log.lastId + i
      {
        assert ids[..i + 1][..i] == ids[..i];
        Append(ids[i], "upsert", "meta", NotebookOrder(ids[i], parent, i), now);
      }
      r := Ok(());
    }
  }
}
