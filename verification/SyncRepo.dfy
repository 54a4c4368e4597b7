/** `sync_repo.rs`: the repository whose methods read and update the three tables. */
module SyncRepos {
  import opened Domain
  import opened Records
  import opened SyncLog
  import Ordering

  // ----- folding through a hash map -----

  /** The map the fold loop builds holds exactly the folded rows. */
  lemma FoldedInMap(rows: seq<Change>, r: Change)
    ensures var latest := Replay(map[], rows);
            r in Fold(rows) <==> r.foldKey in latest && latest[r.foldKey] == r
  {
    FoldMembers(rows, r);
    ReplayHoldsNewest(map[], rows, r.foldKey);
    if r.foldKey in Replay(map[], rows) {
      if forall s :: s in rows ==> s.foldKey != r.foldKey {
        assert false;
      }
      var s :| s in rows && s.foldKey == r.foldKey;
      KeyHasNewest(rows, s);
      if IsNewest(rows, r) {
        NewestUnique(rows, r, Replay(map[], rows)[r.foldKey]);
      }
    }
  }

  lemma {:induction false} KeyHasNewest(rows: seq<Change>, s: Change)
    requires s in rows
    ensures exists r :: IsNewest(rows, r) && r.foldKey == s.foldKey
  {
    var init, last := rows[..|rows| - 1], rows[|rows| - 1];
    if last.foldKey == s.foldKey {
      NewestSnoc(rows, last);
    } else {
      assert rows == init + [last];
      KeyHasNewest(init, s);
      var r :| IsNewest(init, r) && r.foldKey == s.foldKey;
      NewestSnoc(rows, r);
    }
  }

  lemma NewestUnique(rows: seq<Change>, r: Change, s: Change)
    requires IsNewest(rows, r) && IsNewest(rows, s) && r.foldKey == s.foldKey
    ensures r == s
  {
  }

  /** `sort_by_key(|row| row.id)`. */
  predicate ById(a: Change, b: Change) {
    a.id < b.id
  }

  lemma IncreasingIsOrdered(rows: seq<Change>)
    ensures Increasing(rows) <==> Ordering.Ordered(ById, rows)
  {
    if Increasing(rows) {
      assert forall i, j :: 0 <= i < j < |rows| ==> ById(rows[i], rows[j]);
    } else {
      var i, j :| 0 <= i < j < |rows| && rows[i].id >= rows[j].id;
      assert !ById(rows[i], rows[j]);
    }
  }

  lemma OrderIsUnique(a: seq<Change>, b: seq<Change>)
    requires Increasing(a) && Increasing(b) && forall r :: r in a <==> r in b
    ensures a == b
  {
    IncreasingIsOrdered(a);
    IncreasingIsOrdered(b);
    Ordering.OrderIsUnique(ById, a, b);
  }

  lemma InsertKeepsOrder(sorted: seq<Change>, r: Change)
    requires Increasing(sorted) && forall i :: 0 <= i < |sorted| ==> sorted[i].id != r.id
    ensures Increasing(Ordering.Insert(ById, sorted, r))
    ensures forall x :: x in Ordering.Insert(ById, sorted, r) <==> x == r || x in sorted
  {
    IncreasingIsOrdered(sorted);
    Ordering.InsertOrdered(ById, sorted, r);
    Ordering.InsertMembers(ById, sorted, r);
    IncreasingIsOrdered(Ordering.Insert(ById, sorted, r));
  }

  /** `into_values().collect()`, in whatever order the map yields them, then `sort_by_key(id)`. */
  method ValuesById(latest: map<string, Change>) returns (sorted: seq<Change>)
    requires forall k, l :: k in latest && l in latest && k != l ==> latest[k].id != latest[l].id
    ensures Increasing(sorted)
    ensures forall r :: r in sorted <==> r in latest.Values
  {
    sorted := [];
    var rest := latest;
    while |rest| > 0
      invariant Increasing(sorted)
      invariant forall k :: k in rest ==> k in latest && rest[k] == latest[k]
      invariant forall r :: r in sorted <==> exists k :: k in latest && k !in rest && latest[k] == r
      decreases |rest|
    {
      var key :| key in rest;
      ghost var before, left := sorted, rest;
      forall i | 0 <= i < |sorted| ensures sorted[i].id != rest[key].id {
        assert sorted[i] in sorted;
      }
      InsertKeepsOrder(sorted, rest[key]);
      sorted := Ordering.Insert(ById, sorted, rest[key]);
      rest := rest - {key};
      forall r ensures r in sorted <==> exists k :: k in latest && k !in rest && latest[k] == r {
        if r in before {
          var k :| k in latest && k !in left && latest[k] == r;
          assert k !in rest;
        }
        if r == latest[key] {
          assert key !in rest;
        }
      }
    }
  }

  /** The fold of one page: later rows replace earlier ones of the same key, then id order. */
  method FoldPage(rows: seq<Change>) returns (page: seq<Change>)
    requires Increasing(rows)
    ensures page == Fold(rows)
  {
    var latest: map<string, Change> := map[];
    for i := 0 to |rows|
      invariant latest == Replay(map[], rows[..i])
    {
      assert rows[..i + 1][..i] == rows[..i];
      latest := latest[rows[i].foldKey := rows[i]];
    }
    assert rows[..|rows|] == rows;
    MapValues(rows, latest);
    page := ValuesById(latest);
    FoldIsOrdered(rows);
    OrderIsUnique(page, Fold(rows));
  }

  // ----- the repository -----

  class SyncRepo {
    var changes: seq<Change>
    var lastId: nat
    var devices: map<string, DeviceCursor>
    var epochRow: Option<nat>

    ghost function State(): Log
      reads this
    {
      Log(changes, lastId, devices, epochRow)
    }

    /** A new workspace: no changes yet, epoch 1; other workspaces may have used ids up to `lastId`. */
    constructor (lastId: nat)
      requires lastId < I63
      ensures State() == Log([], lastId, map[], Some(1)) && ValidLog(State())
    {
      changes, this.lastId, devices, epochRow := [], lastId, map[], Some(1);
    }

    method Append(entityType: string, entityId: string, operation: string, payloadKind: string,
                  payload: Payload, foldKey: string, now: nat) returns (id: nat)
      requires ValidLog(State()) && lastId + 1 < I63
      modifies this
      ensures State() == Appended(old(State()), Change(0, entityType, entityId, operation, payloadKind, payload, foldKey, now))
      ensures ValidLog(State()) && id == lastId == old(lastId) + 1 && changes == old(changes) + [changes[|old(changes)|]]
    {
      lastId := lastId + 1;
      id := lastId;
      changes := changes + [Change(id, entityType, entityId, operation, payloadKind, payload, foldKey, now)];
    }

    method Epoch() returns (epoch: nat)
      ensures epochRow.Some? ==> epoch == epochRow.value
      ensures epochRow.None? ==> epoch == 1
    {
      epoch := match epochRow case Some(e) => e case None => 1;
    }

    method MaxCursor() returns (cursor: nat)
      requires ValidLog(State())
      ensures cursor == MaxId(changes) && forall r :: r in changes ==> r.id <= cursor
    {
      cursor := 0;
      for i := 0 to |changes|
        invariant cursor == MaxId(changes[..i])
        invariant forall k :: 0 <= k < i ==> changes[k].id <= cursor
      {
        if changes[i].id > cursor {
          cursor := changes[i].id;
        }
      }
      assert changes[..|changes|] == changes;
    }

    method Pull(after: nat, limit: int) returns (page: seq<Change>, cursor: nat, hasMore: bool)
      requires ValidLog(State()) && after < U64
      ensures Page(page, cursor, hasMore) == Pulled(changes, after, limit)
      ensures Increasing(page) && DistinctKeys(page)
      ensures var wanted := if limit < 1 then 1 else if limit > 500 then 500 else limit;
              var signed := if after < 0x8000_0000_0000_0000 then after else after - 0x1_0000_0000_0000_0000;
              && CountIn(changes, signed, cursor) <= wanted
              && (hasMore ==> CountIn(changes, signed, cursor) == wanted)
    {
      var n := Clamp(limit, 1, 500);
      var found := Above(changes, AsI64(after));
      var rows := if |found| > n + 1 then found[..n + 1] else found;
      hasMore := false;
      if |rows| > n {
        hasMore := true;
        rows := rows[..|rows| - 1];
      }
      cursor := if rows == [] then after else rows[|rows| - 1].id;
      PageRows(changes, after, limit, found, Page(rows, cursor, hasMore));
      page := FoldPage(rows);
      FoldIsOrdered(rows);
      PullTakes(changes, after, limit);
    }

    method UpsertDeviceCursor(device: string, user: string, cursor: nat, now: nat)
      requires cursor < U64
      modifies this`devices
      ensures State() == Recorded(old(State()), device, user, cursor, now)
      ensures device in devices && devices[device].userId == user && devices[device].lastSeen == now
      ensures devices[device].cursor == if cursor < 0x8000_0000_0000_0000 then cursor else cursor - 0x1_0000_0000_0000_0000
    {
      var epoch := Epoch();
      devices := devices[device := DeviceCursor(user, AsI64(cursor), epoch, now)];
    }

    method Compact(cutoff: int) returns (deleted: nat)
      requires ValidLog(State())
      modifies this
      ensures State() == Compacted(old(State()), cutoff)
      ensures deleted == |old(changes)| - |changes| && ValidLog(State())
    {
      ghost var before := State();
      devices := map d | d in devices && devices[d].lastSeen >= cutoff :: devices[d];
      var watermark := MinCursor(devices);
      CompactedFrom(before, cutoff, devices, watermark);
      if watermark <= 0 {
        return 0;
      }
      var kept := Above(changes, watermark - 1);
      deleted := |changes| - |kept|;
      changes := kept;
      if deleted > 0 {
        epochRow := match epochRow case Some(e) => Some(e + 1) case None => None;
      }
    }
  }

  lemma CompactedFrom(log: Log, cutoff: int, devices: map<string, DeviceCursor>, w: int)
    requires ValidLog(log) && devices == Unexpired(log.devices, cutoff) && IsWatermark(devices, w)
    ensures ValidLog(Compacted(log, cutoff))
    ensures var kept := Above(log.rows, w - 1);
            && |kept| <= |log.rows|
            && Compacted(log, cutoff) ==
               if w <= 0 then log.(devices := devices)
               else Log(kept, log.lastId, devices,
                        if |kept| < |log.rows| && log.epochRow.Some? then Some(log.epochRow.value + 1) else log.epochRow)
  {
    WatermarkUnique(devices, w, Watermark(devices));
    var k := AboveIsSuffix(log.rows, w - 1);
  }

  /** Fetching one row too many and popping it leaves the page. */
  lemma PageRows(all: seq<Change>, after: nat, limit: int, found: seq<Change>, page: Page)
    requires Increasing(all) && after < U64 && found == Above(all, AsI64(after))
    requires var n := Clamp(limit, 1, 500);
             page.rows == (if |found| > n then found[..n] else found) && (page.hasMore <==> |found| > n)
    requires page.cursor == if page.rows == [] then after else page.rows[|page.rows| - 1].id
    ensures page == PageOf(all, after, limit) && Increasing(page.rows)
  {
    AboveIncreasing(all, AsI64(after));
  }

  /** The map's values are the folded rows, under their own keys. */
  lemma MapValues(rows: seq<Change>, latest: map<string, Change>)
    requires latest == Replay(map[], rows) && Increasing(rows)
    ensures forall r :: r in Fold(rows) <==> r in latest.Values
    ensures forall k, l :: k in latest && l in latest && k != l ==> latest[k].id != latest[l].id
  {
    forall k | k in latest ensures latest[k].foldKey == k && latest[k] in rows {
      ReplayKeys(rows, k);
    }
    forall k, l | k in latest && l in latest && k != l ensures latest[k].id != latest[l].id {
      var i :| 0 <= i < |rows| && rows[i] == latest[k];
      var j :| 0 <= j < |rows| && rows[j] == latest[l];
    }
    forall r ensures r in Fold(rows) <==> r in latest.Values {
      FoldedInMap(rows, r);
    }
  }

  lemma {:induction false} ReplayKeys(rows: seq<Change>, key: string)
    requires key in Replay(map[], rows)
    ensures Replay(map[], rows)[key].foldKey == key && Replay(map[], rows)[key] in rows
  {
    var init, last := rows[..|rows| - 1], rows[|rows| - 1];
    if last.foldKey == key {
    } else {
      ReplayKeys(init, key);
      assert rows == init + [last];
    }
  }

  /** `SELECT MIN(cursor)`, 0 when there is no row. */
  method MinCursor(devices: map<string, DeviceCursor>) returns (w: int)
    ensures IsWatermark(devices, w)
  {
    w := 0;
    var rest, found := devices, false;
    while |rest| > 0
      invariant forall d :: d in rest ==> d in devices
      invariant !found ==> rest == devices && w == 0
      invariant found ==> exists d :: d in devices && devices[d].cursor == w
      invariant found ==> forall d :: d in devices && d !in rest ==> w <= devices[d].cursor
      decreases |rest|
    {
      var d :| d in rest;
      if !found || devices[d].cursor < w {
        w := devices[d].cursor;
      }
      rest, found := rest - {d}, true;
    }
  }
}
