/** The change log of one workspace: append, paged and folded pull, device cursors, compaction. */
module SyncLog {
  import opened Domain
  import opened Records

  /** A row of `device_cursors`; the cursor column is a signed 64-bit integer. */
  datatype DeviceCursor = DeviceCursor(userId: string, cursor: int, epoch: nat, lastSeen: nat)

  /** The three tables of one workspace. `lastId` is the auto-increment counter, shared by all workspaces. */
  datatype Log = Log(
    rows: seq<Change>,
    lastId: nat,
    devices: map<string, DeviceCursor>,
    epochRow: Option<nat>)

  /** `u64 as i64`. */
  function AsI64(n: nat): int
    requires n < U64
  {
    if n < I63 then n else n - U64
  }

  predicate Increasing(rows: seq<Change>) {
    forall i, j :: 0 <= i < j < |rows| ==> rows[i].id < rows[j].id
  }

  predicate ValidLog(log: Log) {
    && Increasing(log.rows)
    && (forall i :: 0 <= i < |log.rows| ==> 0 < log.rows[i].id <= log.lastId)
    && log.lastId < I63
  }

  function EpochOf(log: Log): nat {
    log.epochRow.GetOr(1)
  }

  /** `SELECT MAX(id)`, on a table kept in id order. */
  function MaxId(rows: seq<Change>): nat {
    if rows == [] then 0 else rows[|rows| - 1].id
  }

  // ----- append -----

  function Appended(log: Log, c: Change): Log {
    log.(rows := log.rows + [c.(id := log.lastId + 1)], lastId := log.lastId + 1)
  }

  // ----- pull -----

  /** `WHERE id > after ORDER BY id`. */
  function Above(rows: seq<Change>, after: int): seq<Change> {
    if rows == [] then []
    else (if rows[0].id > after then [rows[0]] else []) + Above(rows[1..], after)
  }

  function Without(rows: seq<Change>, key: string): seq<Change> {
    if rows == [] then []
    else Without(rows[..|rows| - 1], key) + (if rows[|rows| - 1].foldKey == key then [] else [rows[|rows| - 1]])
  }

  /** The newest row of every fold key, in id order. */
  function Fold(rows: seq<Change>): seq<Change> {
    if rows == [] then []
    else
      var last := rows[|rows| - 1];
      Without(Fold(rows[..|rows| - 1]), last.foldKey) + [last]
  }

  datatype Page = Page(rows: seq<Change>, cursor: nat, hasMore: bool)

  function Clamp(n: int, low: nat, high: nat): (r: nat)
    requires low <= high
    ensures low <= r <= high
  {
    if n < low then low else if n > high then high else n
  }

  /** The page before folding. */
  function PageOf(rows: seq<Change>, after: nat, limit: int): Page
    requires after < U64
  {
    var n := Clamp(limit, 1, 500);
    var found := Above(rows, AsI64(after));
    var page := if |found| > n then found[..n] else found;
    Page(page, if page == [] then after else page[|page| - 1].id, |found| > n)
  }

  function Pulled(rows: seq<Change>, after: nat, limit: int): Page
    requires after < U64
  {
    var page := PageOf(rows, after, limit);
    page.(rows := Fold(page.rows))
  }

  // ----- device cursors and compaction -----

  function Recorded(log: Log, device: string, user: string, cursor: nat, now: nat): Log
    requires cursor < U64
  {
    log.(devices := log.devices[device := DeviceCursor(user, AsI64(cursor), EpochOf(log), now)])
  }

  function Unexpired(devices: map<string, DeviceCursor>, cutoff: int): map<string, DeviceCursor> {
    map d | d in devices && devices[d].lastSeen >= cutoff :: devices[d]
  }

  /** `w` is what `SELECT MIN(cursor)` returns, 0 standing for no row. */
  ghost predicate IsWatermark(devices: map<string, DeviceCursor>, w: int) {
    if devices == map[] then w == 0
    else (exists d :: d in devices && devices[d].cursor == w) && forall d :: d in devices ==> w <= devices[d].cursor
  }

  ghost function Watermark(devices: map<string, DeviceCursor>): int {
    WatermarkExists(devices);
    var w :| IsWatermark(devices, w);
    w
  }

  /** What compaction leaves: no expired device, no row below the lowest cursor, one more epoch if rows went. */
  ghost function Compacted(log: Log, cutoff: int): Log {
    var devices := Unexpired(log.devices, cutoff);
    var w := Watermark(devices);
    if w <= 0 then log.(devices := devices)
    else
      var kept := Above(log.rows, w - 1);
      Log(kept, log.lastId, devices,
          if |kept| < |log.rows| && log.epochRow.Some? then Some(log.epochRow.value + 1) else log.epochRow)
  }

  lemma {:induction false} WatermarkExists(devices: map<string, DeviceCursor>)
    ensures exists w :: IsWatermark(devices, w)
    decreases |devices|
  {
    if devices == map[] {
      assert IsWatermark(devices, 0);
    } else {
      var d :| d in devices;
      var rest := devices - {d};
      WatermarkExists(rest);
      var w :| IsWatermark(rest, w);
      var c := devices[d].cursor;
      if rest == map[] || c <= w {
        assert devices == rest[d := devices[d]];
        assert IsWatermark(devices, c);
      } else {
        var e :| e in rest && rest[e].cursor == w;
        assert e in devices && devices[e].cursor == w;
        forall x | x in devices ensures w <= devices[x].cursor {
          if x != d {
            assert x in rest && rest[x] == devices[x];
          }
        }
        assert IsWatermark(devices, w);
      }
    }
  }

  lemma WatermarkUnique(devices: map<string, DeviceCursor>, v: int, w: int)
    requires IsWatermark(devices, v) && IsWatermark(devices, w)
    ensures v == w
  {
  }

  // ----- the table reads -----

  lemma {:induction false} AboveAppend(a: seq<Change>, b: seq<Change>, c: int)
    ensures Above(a + b, c) == Above(a, c) + Above(b, c)
  {
    if a == [] {
      assert a + b == b;
    } else {
      assert (a + b)[1..] == a[1..] + b;
      AboveAppend(a[1..], b, c);
    }
  }

  lemma {:induction false} AboveMembers(rows: seq<Change>, c: int, r: Change)
    ensures r in Above(rows, c) <==> r in rows && r.id > c
  {
    if rows == [] {
    } else {
      AboveMembers(rows[1..], c, r);
    }
  }

  /** In an id-ordered table the rows above a cursor are a suffix. */
  lemma {:induction false} AboveIsSuffix(rows: seq<Change>, c: int) returns (k: nat)
    requires Increasing(rows)
    ensures k <= |rows| && Above(rows, c) == rows[k..]
    ensures forall i :: 0 <= i < |rows| ==> (rows[i].id > c <==> k <= i)
  {
    if rows == [] {
      k := 0;
    } else if rows[0].id > c {
      k := 0;
      AllAbove(rows, c);
    } else {
      var m := AboveIsSuffix(rows[1..], c);
      k := m + 1;
      assert rows[1..][m..] == rows[k..];
    }
  }

  lemma {:induction false} AllAbove(rows: seq<Change>, c: int)
    requires forall i :: 0 <= i < |rows| ==> rows[i].id > c
    ensures Above(rows, c) == rows
  {
    if rows == [] {
    } else {
      AllAbove(rows[1..], c);
    }
  }

  lemma {:induction false} NoneAbove(rows: seq<Change>, c: int)
    requires forall i :: 0 <= i < |rows| ==> rows[i].id <= c
    ensures Above(rows, c) == []
  {
    if rows == [] {
    } else {
      NoneAbove(rows[1..], c);
    }
  }

  lemma {:induction false} AboveAbove(rows: seq<Change>, a: int, b: int)
    requires a <= b
    ensures Above(Above(rows, a), b) == Above(rows, b)
  {
    if rows == [] {
    } else {
      AboveAbove(rows[1..], a, b);
      AboveAppend(if rows[0].id > a then [rows[0]] else [], Above(rows[1..], a), b);
      assert Above([rows[0]], b) == if rows[0].id > b then [rows[0]] else [] by {
        assert [rows[0]][1..] == [];
      }
    }
  }

  // ----- the folded page -----

  lemma {:induction false} WithoutMembers(rows: seq<Change>, key: string, r: Change)
    ensures r in Without(rows, key) <==> r in rows && r.foldKey != key
  {
    if rows == [] {
    } else {
      WithoutMembers(rows[..|rows| - 1], key, r);
      assert rows == rows[..|rows| - 1] + [rows[|rows| - 1]];
    }
  }

  lemma {:induction false} WithoutIncreasing(rows: seq<Change>, key: string)
    requires Increasing(rows)
    ensures Increasing(Without(rows, key))
  {
    if rows == [] {
    } else {
      var init, last := rows[..|rows| - 1], rows[|rows| - 1];
      WithoutIncreasing(init, key);
      forall i | 0 <= i < |Without(init, key)| ensures Without(init, key)[i].id < last.id {
        WithoutMembers(init, key, Without(init, key)[i]);
      }
    }
  }

  /** A folded row is a row of the page after which its key does not occur again. */
  ghost predicate IsNewest(rows: seq<Change>, r: Change) {
    exists i :: 0 <= i < |rows| && rows[i] == r && forall j :: i < j < |rows| ==> rows[j].foldKey != r.foldKey
  }

  lemma NewestSnoc(rows: seq<Change>, r: Change)
    requires rows != []
    ensures var last := rows[|rows| - 1];
            IsNewest(rows, r) <==> r == last || (last.foldKey != r.foldKey && IsNewest(rows[..|rows| - 1], r))
  {
    var init, last := rows[..|rows| - 1], rows[|rows| - 1];
    if r == last {
      assert rows[|rows| - 1] == r;
    } else if IsNewest(rows, r) {
      var i :| 0 <= i < |rows| && rows[i] == r && forall j :: i < j < |rows| ==> rows[j].foldKey != r.foldKey;
      assert init[i] == r && forall j :: i < j < |init| ==> init[j] == rows[j];
    } else if last.foldKey != r.foldKey && IsNewest(init, r) {
      var i :| 0 <= i < |init| && init[i] == r && forall j :: i < j < |init| ==> init[j].foldKey != r.foldKey;
      assert rows[i] == r && forall j :: i < j < |rows| ==> rows[j] == if j < |init| then init[j] else last;
    }
  }

  lemma {:induction false} FoldMembers(rows: seq<Change>, r: Change)
    ensures r in Fold(rows) <==> IsNewest(rows, r)
  {
    if rows == [] {
    } else {
      var init, last := rows[..|rows| - 1], rows[|rows| - 1];
      FoldMembers(init, r);
      WithoutMembers(Fold(init), last.foldKey, r);
      NewestSnoc(rows, r);
    }
  }

  predicate DistinctKeys(rows: seq<Change>) {
    forall i, j :: 0 <= i < j < |rows| ==> rows[i].foldKey != rows[j].foldKey
  }

  lemma {:induction false} FoldIsFromRows(rows: seq<Change>)
    ensures forall r :: r in Fold(rows) ==> r in rows
  {
    forall r | r in Fold(rows) ensures r in rows {
      FoldMembers(rows, r);
    }
  }

  /** Each page is strictly increasing by id, has one row per key and ends with its newest row. */
  lemma {:induction false} FoldIsOrdered(rows: seq<Change>)
    requires Increasing(rows)
    ensures Increasing(Fold(rows)) && DistinctKeys(Fold(rows))
    ensures rows != [] ==> Fold(rows)[|Fold(rows)| - 1] == rows[|rows| - 1]
  {
    if rows == [] {
    } else {
      var init, last := rows[..|rows| - 1], rows[|rows| - 1];
      var older := Without(Fold(init), last.foldKey);
      FoldIsOrdered(init);
      WithoutIncreasing(Fold(init), last.foldKey);
      WithoutKeys(Fold(init), last.foldKey);
      FoldIsFromRows(init);
      forall i | 0 <= i < |older| ensures older[i].id < last.id && older[i].foldKey != last.foldKey {
        WithoutMembers(Fold(init), last.foldKey, older[i]);
      }
      Snoc(older, last);
    }
  }

  lemma Snoc(rows: seq<Change>, last: Change)
    requires Increasing(rows) && DistinctKeys(rows)
    requires forall i :: 0 <= i < |rows| ==> rows[i].id < last.id && rows[i].foldKey != last.foldKey
    ensures Increasing(rows + [last]) && DistinctKeys(rows + [last])
  {
  }

  lemma {:induction false} WithoutKeys(rows: seq<Change>, key: string)
    requires DistinctKeys(rows)
    ensures DistinctKeys(Without(rows, key))
  {
    if rows == [] {
    } else {
      var init, last := rows[..|rows| - 1], rows[|rows| - 1];
      WithoutKeys(init, key);
      forall i | 0 <= i < |Without(init, key)| ensures Without(init, key)[i].foldKey != last.foldKey {
        WithoutMembers(init, key, Without(init, key)[i]);
      }
    }
  }

  // ----- replaying changes -----

  /** A replica: the newest change seen for every fold key. */
  type View = map<string, Change>

  function Replay(view: View, rows: seq<Change>): View {
    if rows == [] then view
    else Replay(view, rows[..|rows| - 1])[rows[|rows| - 1].foldKey := rows[|rows| - 1]]
  }

  lemma {:induction false} ReplayAppend(view: View, a: seq<Change>, b: seq<Change>)
    ensures Replay(view, a + b) == Replay(Replay(view, a), b)
  {
    if b == [] {
      assert a + b == a;
    } else {
      assert (a + b)[..|a + b| - 1] == a + b[..|b| - 1];
      ReplayAppend(view, a, b[..|b| - 1]);
    }
  }

  lemma {:induction false} ReplayWithout(view: View, rows: seq<Change>, key: string, last: Change)
    requires last.foldKey == key
    ensures Replay(view, Without(rows, key))[key := last] == Replay(view, rows)[key := last]
  {
    if rows == [] {
    } else {
      var init, r := rows[..|rows| - 1], rows[|rows| - 1];
      ReplayWithout(view, init, key, last);
      if r.foldKey != key {
        assert (Without(init, key) + [r])[..|Without(init, key)|] == Without(init, key);
        var a, b := Replay(view, Without(init, key)), Replay(view, init);
        assert a[r.foldKey := r][key := last] == a[key := last][r.foldKey := r];
        assert b[r.foldKey := r][key := last] == b[key := last][r.foldKey := r];
      } else {
        assert Without(rows, key) == Without(init, key);
      }
    }
  }

  /** Folding a page does not change what replaying it does to any replica. */
  lemma {:induction false} FoldRefinesReplay(view: View, rows: seq<Change>)
    ensures Replay(view, Fold(rows)) == Replay(view, rows)
  {
    if rows == [] {
    } else {
      var init, last := rows[..|rows| - 1], rows[|rows| - 1];
      var older := Without(Fold(init), last.foldKey);
      FoldRefinesReplay(view, init);
      ReplayWithout(view, Fold(init), last.foldKey, last);
      assert (older + [last])[..|older|] == older;
    }
  }

  /** After a replay every key holds its newest replayed row, and untouched keys what they held. */
  lemma {:induction false} ReplayHoldsNewest(view: View, rows: seq<Change>, key: string)
    ensures (exists r :: IsNewest(rows, r) && r.foldKey == key)
            ==> key in Replay(view, rows) && Replay(view, rows)[key].foldKey == key && IsNewest(rows, Replay(view, rows)[key])
    ensures (forall r :: r in rows ==> r.foldKey != key)
            ==> (key in Replay(view, rows) <==> key in view) && (key in view ==> Replay(view, rows)[key] == view[key])
  {
    if rows == [] {
    } else {
      var init, last := rows[..|rows| - 1], rows[|rows| - 1];
      ReplayHoldsNewest(view, init, key);
      if last.foldKey == key {
        NewestSnoc(rows, last);
      } else if exists r :: IsNewest(rows, r) && r.foldKey == key {
        var r :| IsNewest(rows, r) && r.foldKey == key;
        NewestSnoc(rows, r);
        NewestSnoc(rows, Replay(view, init)[key]);
      }
    }
  }

  // ----- paging -----

  lemma CutBehind(rows: seq<Change>, m: nat)
    requires Increasing(rows) && 0 < m <= |rows|
    ensures Above(rows, rows[m - 1].id) == rows[m..]
  {
    var k := AboveIsSuffix(rows, rows[m - 1].id);
    assert m < |rows| ==> rows[m].id > rows[m - 1].id;
    assert k == m;
  }

  /** The page is the front of the rows above its cursor. */
  lemma PageFront(rows: seq<Change>, after: nat, limit: int) returns (n: nat)
    requires after < U64
    ensures var found, p := Above(rows, AsI64(after)), PageOf(rows, after, limit);
            && n == (if |found| > Clamp(limit, 1, 500) then Clamp(limit, 1, 500) else |found|)
            && p.rows == found[..n] && (p.hasMore <==> n < |found|)
            && p.cursor == if n == 0 then after else found[n - 1].id
  {
    n := |PageOf(rows, after, limit).rows|;
  }

  lemma PageTaken(rows: seq<Change>, after: nat, limit: int) returns (k: nat, m: nat)
    requires Increasing(rows) && after < I63
    ensures var p := PageOf(rows, after, limit);
            && k <= m <= |rows| && p.rows == rows[k..m] && Above(rows, after) == rows[k..]
            && (p.hasMore <==> m < |rows|) && (m == k ==> !p.hasMore && p.cursor == after)
            && (m > k ==> p.cursor == rows[m - 1].id > after)
  {
    k := AboveIsSuffix(rows, after);
    var n := PageFront(rows, after, limit);
    m := k + n;
    assert n > 0 ==> rows[k..][n - 1] == rows[m - 1] && rows[k..][..n] == rows[k..m];
  }

  /** `p` took the rows above `after` up to its own cursor and left the rest. */
  ghost predicate Splits(rows: seq<Change>, after: nat, p: Page) {
    && Above(rows, after) == p.rows + Above(rows, p.cursor)
    && p.cursor >= after
    && (p.hasMore <==> Above(rows, p.cursor) != [])
    && (p.rows == [] ==> p.cursor == after && !p.hasMore)
    && (p.rows != [] ==> p.cursor == p.rows[|p.rows| - 1].id && p.rows[|p.rows| - 1] in rows)
  }

  lemma CutSplits(rows: seq<Change>, after: nat, p: Page, k: nat, m: nat)
    requires Increasing(rows) && k <= m <= |rows| && p.rows == rows[k..m] && Above(rows, after) == rows[k..]
    requires p.hasMore <==> m < |rows|
    requires m == k ==> !p.hasMore && p.cursor == after
    requires m > k ==> p.cursor == rows[m - 1].id > after
    ensures Splits(rows, after, p)
  {
    assert rows[k..] == rows[k..m] + rows[m..];
    if m > k {
      CutBehind(rows, m);
      assert p.rows[m - k - 1] == rows[m - 1];
    }
  }

  lemma PageSplits(rows: seq<Change>, after: nat, limit: int)
    requires Increasing(rows) && after < I63
    ensures Splits(rows, after, PageOf(rows, after, limit))
  {
    var k, m := PageTaken(rows, after, limit);
    CutSplits(rows, after, PageOf(rows, after, limit), k, m);
  }

  /** How many rows have ids above `low` and up to `high`. */
  function CountIn(rows: seq<Change>, low: int, high: int): nat {
    if rows == [] then 0 else (if low < rows[0].id <= high then 1 else 0) + CountIn(rows[1..], low, high)
  }

  lemma {:induction false} CountAbove(rows: seq<Change>, low: int, high: int)
    ensures CountIn(rows, low, high) == CountIn(Above(rows, low), low, high)
  {
    if rows == [] {
    } else {
      CountAbove(rows[1..], low, high);
      var rest := Above(rows[1..], low);
      assert [] + rest == rest && ([rows[0]] + rest)[1..] == rest;
    }
  }

  lemma {:induction false} CountFront(rows: seq<Change>, low: int, high: int, n: nat)
    requires n <= |rows|
    requires forall i :: 0 <= i < |rows| ==> rows[i].id > low && (rows[i].id <= high <==> i < n)
    ensures CountIn(rows, low, high) == n
  {
    if rows == [] {
    } else {
      CountFront(rows[1..], low, high, if n == 0 then 0 else n - 1);
    }
  }

  lemma AboveIncreasing(rows: seq<Change>, low: int)
    requires Increasing(rows)
    ensures Increasing(Above(rows, low))
    ensures forall i :: 0 <= i < |Above(rows, low)| ==> Above(rows, low)[i].id > low
  {
    var k := AboveIsSuffix(rows, low);
  }

  /** The page of the first `n` of the rows above a cursor. */
  lemma TakesFront(found: seq<Change>, low: int, n: nat, cursor: int)
    requires Increasing(found) && forall i :: 0 <= i < |found| ==> found[i].id > low
    requires n <= |found| && if n == 0 then found == [] else cursor == found[n - 1].id
    ensures CountIn(found, low, cursor) == n
    ensures n < |found| <==> exists r :: r in found && r.id > cursor
  {
    CountFront(found, low, cursor, n);
    if n < |found| {
      assert found[n] in found;
    }
  }

  lemma MoreAbove(rows: seq<Change>, low: int, cursor: int)
    ensures (exists r :: r in Above(rows, low) && r.id > cursor) <==> exists r :: r in rows && r.id > low && r.id > cursor
  {
    forall r ensures r in Above(rows, low) <==> r in rows && r.id > low {
      AboveMembers(rows, low, r);
    }
  }

  /** A pull takes the requested number of rows, at least one and at most 500, if there are more, and otherwise all there
      are; the cursor it starts from is read as a signed number. */
  lemma PullTakes(rows: seq<Change>, after: nat, limit: int)
    requires Increasing(rows) && after < U64
    ensures var p := Pulled(rows, after, limit);
            var wanted := if limit < 1 then 1 else if limit > 500 then 500 else limit;
            var signed := if after < 0x8000_0000_0000_0000 then after else after - 0x1_0000_0000_0000_0000;
            && CountIn(rows, signed, p.cursor) <= wanted
            && (p.hasMore ==> CountIn(rows, signed, p.cursor) == wanted)
            && (p.hasMore <==> exists r :: r in rows && r.id > signed && r.id > p.cursor)
  {
    var signed, cursor := AsI64(after), PageOf(rows, after, limit).cursor;
    var n := PageFront(rows, after, limit);
    AboveIncreasing(rows, signed);
    CountAbove(rows, signed, cursor);
    TakesFront(Above(rows, signed), signed, n, cursor);
    MoreAbove(rows, signed, cursor);
  }

  /** Pulling page after page until `has_more` is false, applying each folded page. */
  function PullAll(rows: seq<Change>, after: nat, limit: int, view: View): View
    requires Increasing(rows) && after < I63 && forall i :: 0 <= i < |rows| ==> rows[i].id < I63
    decreases |Above(rows, after)|
  {
    PageSplits(rows, after, limit);
    var p := Pulled(rows, after, limit);
    var view' := Replay(view, p.rows);
    if p.hasMore then PullAll(rows, p.cursor, limit, view') else view'
  }

  /** Paging and folding refine a plain replay of everything above the first cursor, for every page size. */
  lemma {:induction false} PagingRefinesReplay(rows: seq<Change>, after: nat, limit: int, view: View)
    requires Increasing(rows) && after < I63 && forall i :: 0 <= i < |rows| ==> rows[i].id < I63
    ensures PullAll(rows, after, limit, view) == Replay(view, Above(rows, after))
    decreases |Above(rows, after)|
  {
    PageSplits(rows, after, limit);
    var page := PageOf(rows, after, limit);
    FoldRefinesReplay(view, page.rows);
    ReplayAppend(view, page.rows, Above(rows, page.cursor));
    if page.hasMore {
      PagingRefinesReplay(rows, page.cursor, limit, Replay(view, page.rows));
    } else {
      assert page.rows + [] == page.rows;
    }
  }
}
