/** Keyset paging of `memos.rs`: the memo list, newest first, and the inventory, by id. */
module Paging {
  import opened Domain
  import opened Text
  import opened SyncLog
  import opened Ordering

  // ----- the memo list -----

  /** The columns of a memo that the list filters and orders by. */
  datatype Row = Row(id: string, notebookId: string, isDeleted: bool, updatedAt: string)

  datatype ListPage = ListPage(rows: seq<Row>, next: Option<string>)

  predicate KeyBefore(ts: string, id: string, ts': string, id': string) {
    TextLess(ts, ts') || (ts == ts' && TextLess(id, id'))
  }

  /** `ORDER BY updated_at DESC, id DESC`. */
  predicate Newer(a: Row, b: Row) {
    KeyBefore(b.updatedAt, b.id, a.updatedAt, a.id)
  }

  function PrintCursor(row: Row): string {
    row.updatedAt + "|" + row.id
  }

  /** `split_once('|')`, or the whole text and an empty id. */
  function ParseCursor(cursor: string): (string, string) {
    var i := IndexOf(cursor, '|');
    if i == |cursor| then (cursor, "") else (cursor[..i], cursor[i + 1..])
  }

  /** The filter of the request, and what a cursor adds to it: `(updated_at, id) < (?, ?)`. */
  function Behind(keep: Row -> bool, cursor: Option<string>): Row -> bool {
    match cursor
    case None => keep
    case Some(c) => (row: Row) => keep(row) && KeyBefore(row.updatedAt, row.id, ParseCursor(c).0, ParseCursor(c).1)
  }

  function Found(table: seq<Row>, keep: Row -> bool, cursor: Option<string>): seq<Row> {
    Query(Newer, Behind(keep, cursor), table)
  }

  function PageOfList(table: seq<Row>, keep: Row -> bool, cursor: Option<string>, limit: int): ListPage {
    var n, found := Clamp(limit, 1, 200), Found(table, keep, cursor);
    if |found| > n then ListPage(found[..n], Some(PrintCursor(found[n - 1]))) else ListPage(found, None)
  }

  /** Fetches one row too many, pops it, and names the last row kept. `matches` is the text search, if there is one. */
  method List(table: seq<Row>, notebookId: Option<string>, trash: bool, matches: Row -> bool, cursor: Option<string>, limit: int)
    returns (page: ListPage)
    ensures page == PageOfList(table, Filter(notebookId, trash, matches), cursor, limit)
    ensures var wanted := if limit < 1 then 1 else if limit > 200 then 200 else limit;
            |page.rows| <= wanted && (page.next.Some? ==> |page.rows| == wanted)
  {
    var n := Clamp(limit, 1, 200);
    var rows := Found(table, Filter(notebookId, trash, matches), cursor);
    if |rows| > n + 1 {
      assert rows[..n + 1][..n] == rows[..n];
      rows := rows[..n + 1];
    }
    var next := None;
    if |rows| > n {
      rows := rows[..|rows| - 1];
      next := Some(rows[|rows| - 1].updatedAt + "|" + rows[|rows| - 1].id);
    }
    page := ListPage(rows, next);
  }

  function Filter(notebookId: Option<string>, trash: bool, matches: Row -> bool): Row -> bool {
    (row: Row) => row.isDeleted == trash && matches(row) && (notebookId.None? || row.notebookId == notebookId.value)
  }

  /** Ids are unique and times contain no bar. */
  predicate TableOk(table: seq<Row>) {
    && (forall i, j :: 0 <= i < j < |table| ==> table[i].id != table[j].id)
    && (forall i :: 0 <= i < |table| ==> '|' !in table[i].updatedAt)
  }

  lemma CursorRoundTrip(row: Row)
    requires '|' !in row.updatedAt
    ensures ParseCursor(PrintCursor(row)) == (row.updatedAt, row.id)
  {
    FirstOccurrence(row.updatedAt, '|', row.id);
    var c := PrintCursor(row);
    assert c[..|row.updatedAt|] == row.updatedAt && c[|row.updatedAt| + 1..] == row.id;
  }

  lemma NewerTransitive(a: Row, b: Row, c: Row)
    requires Newer(a, b) && Newer(b, c)
    ensures Newer(a, c)
  {
    if TextLess(c.updatedAt, b.updatedAt) && TextLess(b.updatedAt, a.updatedAt) {
      TextLessTransitive(c.updatedAt, b.updatedAt, a.updatedAt);
    }
    if TextLess(c.id, b.id) && TextLess(b.id, a.id) {
      TextLessTransitive(c.id, b.id, a.id);
    }
  }

  lemma NewerIsOrder(table: seq<Row>)
    ensures StrictOrder(Newer)
    ensures TableOk(table) ==> TotalOn(Newer, table)
  {
    forall a: Row ensures !Newer(a, a) {
      TextLessIrreflexive(a.updatedAt);
      TextLessIrreflexive(a.id);
    }
    forall a: Row, b: Row, c: Row | Newer(a, b) && Newer(b, c) ensures Newer(a, c) {
      NewerTransitive(a, b, c);
    }
    if TableOk(table) {
      forall i, j | 0 <= i < j < |table| ensures Newer(table[i], table[j]) || Newer(table[j], table[i]) {
        TextLessTotal(table[i].updatedAt, table[j].updatedAt);
        TextLessTotal(table[i].id, table[j].id);
      }
    }
  }

  lemma BehindTwice(table: seq<Row>, keep: Row -> bool, cursor: Option<string>, last: Row, y: Row)
    requires '|' !in last.updatedAt && Behind(keep, cursor)(last)
    ensures Behind(keep, Some(PrintCursor(last)))(y) <==> Behind(keep, cursor)(y) && Newer(last, y)
  {
    CursorRoundTrip(last);
    if cursor.Some? && Newer(last, y) {
      var (ts, id) := ParseCursor(cursor.value);
      NewerTransitive(Row(id, "", false, ts), last, y);
    }
  }

  lemma FoundBehind(table: seq<Row>, keep: Row -> bool, cursor: Option<string>, found: seq<Row>, n: nat)
    requires TableOk(table) && found == Found(table, keep, cursor) && 0 < n <= |found|
    ensures Found(table, keep, Some(PrintCursor(found[n - 1]))) == found[n..]
  {
    var last, next := found[n - 1], Some(PrintCursor(found[n - 1]));
    NewerIsOrder(table);
    QueryIs(Newer, Behind(keep, cursor), table);
    assert last in found;
    forall y ensures Behind(keep, next)(y) <==> Behind(keep, cursor)(y) && Newer(last, y) {
      BehindTwice(table, keep, cursor, last, y);
    }
    QueryBehind(Newer, Behind(keep, cursor), Behind(keep, next), table, n);
  }

  /** The next cursor leaves exactly the rows behind the page. */
  lemma NextLeavesRest(table: seq<Row>, keep: Row -> bool, cursor: Option<string>, limit: int)
    requires TableOk(table)
    ensures var page, found := PageOfList(table, keep, cursor, limit), Found(table, keep, cursor);
            if page.next.Some? then
              found == page.rows + Found(table, keep, page.next) && page.rows != [] && Found(table, keep, page.next) != []
            else found == page.rows
  {
    var found, n := Found(table, keep, cursor), Clamp(limit, 1, 200);
    if |found| > n {
      FoundBehind(table, keep, cursor, found, n);
      assert found == found[..n] + found[n..];
    }
  }

  /** Following `next_cursor` to the end; page `k` is asked for with `limits(k)` rows. */
  function FollowList(table: seq<Row>, keep: Row -> bool, cursor: Option<string>, limits: nat -> int, k: nat): seq<Row>
    requires TableOk(table)
    decreases |Found(table, keep, cursor)|
  {
    NextLeavesRest(table, keep, cursor, limits(k));
    var page := PageOfList(table, keep, cursor, limits(k));
    if page.next.None? then page.rows else page.rows + FollowList(table, keep, page.next, limits, k + 1)
  }

  lemma {:induction false} FollowGivesFound(table: seq<Row>, keep: Row -> bool, cursor: Option<string>, limits: nat -> int, k: nat)
    requires TableOk(table)
    ensures FollowList(table, keep, cursor, limits, k) == Found(table, keep, cursor)
    decreases |Found(table, keep, cursor)|
  {
    NextLeavesRest(table, keep, cursor, limits(k));
    var page := PageOfList(table, keep, cursor, limits(k));
    if page.next.None? {
    } else {
      FollowGivesFound(table, keep, page.next, limits, k + 1);
    }
  }

  /** On a fixed table, the pages of any sizes concatenate to exactly the rows in or out of the trash, of the notebook if
      one is named, that match; each once, the newest first and equal times by descending id. */
  lemma ListIsComplete(table: seq<Row>, notebookId: Option<string>, trash: bool, matches: Row -> bool, limits: nat -> int)
    requires TableOk(table)
    ensures var all := FollowList(table, Filter(notebookId, trash, matches), None, limits, 0);
            && (forall i, j :: 0 <= i < j < |all| ==>
                  || TextLess(all[j].updatedAt, all[i].updatedAt)
                  || (all[j].updatedAt == all[i].updatedAt && TextLess(all[j].id, all[i].id)))
            && forall row :: row in all <==>
                 row in table && row.isDeleted == trash && matches(row) && (notebookId.Some? ==> notebookId == Some(row.notebookId))
  {
    var keep := Filter(notebookId, trash, matches);
    FollowGivesFound(table, keep, None, limits, 0);
    NewerIsOrder(table);
    QueryIs(Newer, keep, table);
    var all := FollowList(table, keep, None, limits, 0);
    forall i, j | 0 <= i < j < |all|
      ensures TextLess(all[j].updatedAt, all[i].updatedAt)
              || (all[j].updatedAt == all[i].updatedAt && TextLess(all[j].id, all[i].id))
    {
      assert Newer(all[i], all[j]);
    }
  }

  // ----- the inventory -----

  datatype InventoryPage = InventoryPage(ids: seq<string>, hasMore: bool, next: Option<string>)

  function Above(after: Option<string>): string -> bool {
    (id: string) => after.None? || TextLess(after.value, id)
  }

  /** `WHERE id > ? ORDER BY id ASC`. */
  function FoundIds(table: seq<string>, after: Option<string>): seq<string> {
    Query(TextLess, Above(after), table)
  }

  function PageOfInventory(table: seq<string>, after: Option<string>, limit: int): InventoryPage {
    var n, found := Clamp(limit, 1, 1000), FoundIds(table, after);
    if |found| > n then InventoryPage(found[..n], true, Some(found[n - 1])) else InventoryPage(found, false, None)
  }

  method Inventory(table: seq<string>, after: Option<string>, limit: int) returns (page: InventoryPage)
    ensures page == PageOfInventory(table, after, limit)
    ensures var wanted := if limit < 1 then 1 else if limit > 1000 then 1000 else limit;
            |page.ids| <= wanted && (page.hasMore ==> |page.ids| == wanted)
  {
    var n := Clamp(limit, 1, 1000);
    var rows := FoundIds(table, after);
    if |rows| > n + 1 {
      assert rows[..n + 1][..n] == rows[..n];
      rows := rows[..n + 1];
    }
    var more, next := false, None;
    if |rows| > n {
      more := true;
      rows := rows[..|rows| - 1];
      next := Some(rows[|rows| - 1]);
    }
    page := InventoryPage(rows, more, next);
  }

  /** What a client has received, where it goes on, and whether it was told that this was all. */
  datatype Walk = Walk(ids: seq<string>, after: Option<string>, finished: bool)

  /** Page `k` is read from the `k`-th table: memos come and go between the pages. */
  function FollowInventory(tables: seq<seq<string>>, limits: nat -> int): Walk {
    if tables == [] then Walk([], None, false)
    else
      var n := |tables| - 1;
      var w := FollowInventory(tables[..n], limits);
      if w.finished then w
      else
        var page := PageOfInventory(tables[n], w.after, limits(n));
        Walk(w.ids + page.ids, if page.hasMore then page.next else w.after, !page.hasMore)
  }

  predicate DistinctIds(ids: seq<string>) {
    forall i, j :: 0 <= i < j < |ids| ==> ids[i] != ids[j]
  }

  lemma TextOrder(table: seq<string>)
    ensures StrictOrder(TextLess)
    ensures DistinctIds(table) ==> TotalOn(TextLess, table)
  {
    forall a: string ensures !TextLess(a, a) {
      TextLessIrreflexive(a);
    }
    forall a: string, b: string, c: string | TextLess(a, b) && TextLess(b, c) ensures TextLess(a, c) {
      TextLessTransitive(a, b, c);
    }
    if DistinctIds(table) {
      forall i, j | 0 <= i < j < |table| ensures TextLess(table[i], table[j]) || TextLess(table[j], table[i]) {
        TextLessTotal(table[i], table[j]);
      }
    }
  }

  /** Cutting an ordered list: what is cut off comes after what is left. */
  lemma CutOrdered(found: seq<string>, n: nat)
    requires Ordered(TextLess, found) && 0 < n <= |found|
    ensures Ordered(TextLess, found[..n])
    ensures forall id :: id in found && id !in found[..n] ==> TextLess(found[n - 1], id)
  {
    forall id | id in found ensures id in found[..n] || TextLess(found[n - 1], id) {
      var k :| 0 <= k < |found| && found[k] == id;
      if k < n {
        assert found[..n][k] == id;
      }
    }
  }

  /** What one page takes from its table. */
  lemma InventoryTakes(table: seq<string>, after: Option<string>, limit: int)
    requires DistinctIds(table)
    ensures var page := PageOfInventory(table, after, limit);
            && Ordered(TextLess, page.ids)
            && (forall id :: id in page.ids ==> id in table && Above(after)(id))
            && (forall id :: id in table && Above(after)(id) && id !in page.ids ==>
                               page.hasMore && TextLess(page.next.value, id))
            && (page.hasMore ==> page.ids != [] && page.next == Some(page.ids[|page.ids| - 1]))
            && (page.hasMore ==> exists id :: id in table && Above(after)(id) && TextLess(page.next.value, id))
  {
    var found, n := FoundIds(table, after), Clamp(limit, 1, 1000);
    TextOrder(table);
    QueryIs(TextLess, Above(after), table);
    if |found| > n {
      CutOrdered(found, n);
      assert found[n] in found && TextLess(found[n - 1], found[n]);
      assert forall id :: id in found[..n] ==> id in found;
    }
  }

  ghost predicate InAll(tables: seq<seq<string>>, id: string) {
    forall k :: 0 <= k < |tables| ==> id in tables[k]
  }

  ghost predicate InSome(tables: seq<seq<string>>, id: string) {
    exists k :: 0 <= k < |tables| && id in tables[k]
  }

  /** Everything up to the cursor has been received, in order. */
  ghost predicate WalkOk(tables: seq<seq<string>>, w: Walk) {
    && Ordered(TextLess, w.ids)
    && (forall id :: id in w.ids ==> InSome(tables, id))
    && (w.after.None? && !w.finished ==> w.ids == [])
    && (w.after.Some? && !w.finished ==> forall id :: id in w.ids ==> !TextLess(w.after.value, id))
    && (forall id :: InAll(tables, id) && id !in w.ids ==> !w.finished && Above(w.after)(id))
  }

  lemma JoinOrdered(a: seq<string>, b: seq<string>, after: Option<string>)
    requires Ordered(TextLess, a) && Ordered(TextLess, b)
    requires after.None? ==> a == []
    requires after.Some? ==> forall id :: id in a ==> !TextLess(after.value, id)
    requires forall id :: id in b ==> Above(after)(id)
    ensures Ordered(TextLess, a + b)
  {
    forall i, j | 0 <= i < |a| && 0 <= j < |b| ensures TextLess(a[i], b[j]) {
      assert a[i] in a && b[j] in b;
      TextLessTotal(a[i], after.value);
      if TextLess(a[i], after.value) {
        TextLessTransitive(a[i], after.value, b[j]);
      }
    }
  }

  lemma {:induction false} InventoryWalk(tables: seq<seq<string>>, limits: nat -> int)
    requires forall k :: 0 <= k < |tables| ==> DistinctIds(tables[k])
    ensures WalkOk(tables, FollowInventory(tables, limits))
  {
    if tables == [] {
    } else {
      var n := |tables| - 1;
      InventoryWalk(tables[..n], limits);
      WalkStep(tables, FollowInventory(tables[..n], limits), limits(n));
    }
  }

  lemma WalkStep(tables: seq<seq<string>>, w: Walk, limit: int)
    requires tables != [] && DistinctIds(tables[|tables| - 1]) && WalkOk(tables[..|tables| - 1], w)
    ensures var page := PageOfInventory(tables[|tables| - 1], w.after, limit);
            WalkOk(tables, if w.finished then w
                           else Walk(w.ids + page.ids, if page.hasMore then page.next else w.after, !page.hasMore))
  {
    var n := |tables| - 1;
    var earlier, table := tables[..n], tables[n];
    forall id ensures InAll(tables, id) ==> InAll(earlier, id) && id in table {
    }
    forall id | InSome(earlier, id) ensures InSome(tables, id) {
      var k :| 0 <= k < n && id in earlier[k];
      assert id in tables[k];
    }
    if !w.finished {
      var page := PageOfInventory(table, w.after, limit);
      InventoryTakes(table, w.after, limit);
      JoinOrdered(w.ids, page.ids, w.after);
      assert forall id :: id in page.ids ==> InSome(tables, id);
      if page.hasMore {
        LastIsGreatest(w.ids + page.ids);
      }
    }
  }

  lemma LastIsGreatest(ids: seq<string>)
    requires ids != [] && Ordered(TextLess, ids)
    ensures forall id :: id in ids ==> !TextLess(ids[|ids| - 1], id)
  {
    TextOrder(ids);
    forall id | id in ids ensures !TextLess(ids[|ids| - 1], id) {
      var k :| 0 <= k < |ids| && ids[k] == id;
    }
  }

  /** Whatever memos come and go between the pages, a finished walk has every memo that was there throughout, exactly once
      and in id order, and nothing that was never there. */
  lemma {:induction false} InventoryIsComplete(tables: seq<seq<string>>, limits: nat -> int, id: string)
    requires forall k :: 0 <= k < |tables| ==> DistinctIds(tables[k])
    requires FollowInventory(tables, limits).finished
    ensures var ids := FollowInventory(tables, limits).ids;
            && Ordered(TextLess, ids) && DistinctIds(ids)
            && (InAll(tables, id) ==> id in ids)
            && (id in ids ==> InSome(tables, id))
  {
    InventoryWalk(tables, limits);
    TextOrder([]);
  }
}
