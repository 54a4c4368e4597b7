/** Whole runs of the sync protocol: writers, other devices and compaction around one pulling client. */
module SyncRuns {
  import opened Domain
  import opened Records
  import opened SyncLog

  // ----- the machine -----

  /** How far the pull request in flight has come: rows are read first, then the epoch, then the cursor is recorded. */
  datatype Phase =
    | Idle
    | HaveRows(page: Page)
    | HaveEpoch(page: Page, epoch: nat)
    | Saved(page: Page, epoch: nat)

  /** A client holds the epoch of its inventory, the cursor last returned to it and its replica;
      `trusted` while every response carried that epoch. */
  datatype Client = Client(device: string, epoch: nat, cursor: nat, view: View, trusted: bool, phase: Phase)

  /** `history` is every row ever appended; the client's inventory read its cursor when there were `since` of them,
      `oldRows` were still in the log and its replica was `base`. */
  datatype Sys = Sys(log: Log, history: seq<Change>, client: Client, since: nat, oldRows: seq<Change>, base: View)

  datatype Event =
    | Write(change: Change)
    | WriteElsewhere
    | Record(device: string, user: string, cursor: nat, now: nat)
    | Compact(cutoff: int)
    | PullRows(limit: int)
    | PullEpoch
    | SaveCursor(user: string, now: nat)
    | SkipSave
    | Deliver
    | Lose

  function Received(c: Client, page: Page, epoch: nat): Client {
    c.(cursor := page.cursor, view := Replay(c.view, page.rows), trusted := c.trusted && epoch == c.epoch, phase := Idle)
  }

  ghost function Step(s: Sys, e: Event): Sys {
    var log, c := s.log, s.client;
    match e
    case Write(change) =>
      if log.lastId + 1 < I63 then
        s.(log := Appended(log, change), history := s.history + [change.(id := log.lastId + 1)])
      else s
    case WriteElsewhere => if log.lastId + 1 < I63 then s.(log := log.(lastId := log.lastId + 1)) else s
    case Record(device, user, cursor, now) =>
      if cursor < U64 then s.(log := Recorded(log, device, user, cursor, now)) else s
    case Compact(cutoff) => s.(log := Compacted(log, cutoff))
    case PullRows(limit) =>
      if c.phase.Idle? && c.cursor < U64 then s.(client := c.(phase := HaveRows(Pulled(log.rows, c.cursor, limit)))) else s
    case PullEpoch =>
      if c.phase.HaveRows? then s.(client := c.(phase := HaveEpoch(c.phase.page, EpochOf(log)))) else s
    case SaveCursor(user, now) =>
      if c.phase.HaveEpoch? && c.phase.page.cursor < U64 then
        s.(log := Recorded(log, c.device, user, c.phase.page.cursor, now),
           client := c.(phase := Saved(c.phase.page, c.phase.epoch)))
      else s
    case SkipSave =>
      if c.phase.HaveEpoch? then s.(client := c.(phase := Saved(c.phase.page, c.phase.epoch))) else s
    case Deliver =>
      if c.phase.Saved? then s.(client := Received(c, c.phase.page, c.phase.epoch)) else s
    case Lose => s.(client := c.(phase := Idle))
  }

  ghost function Run(s: Sys, es: seq<Event>): Sys {
    if es == [] then s else Step(Run(s, es[..|es| - 1]), es[|es| - 1])
  }

  /** The rows appended since the client's inventory. */
  function News(s: Sys): seq<Change>
    requires s.since <= |s.history|
  {
    s.history[s.since..]
  }

  // ----- rows up to a cursor -----

  function UpTo(rows: seq<Change>, c: int): seq<Change> {
    if rows == [] then []
    else UpTo(rows[..|rows| - 1], c) + (if rows[|rows| - 1].id <= c then [rows[|rows| - 1]] else [])
  }

  lemma {:induction false} UpToThenAbove(rows: seq<Change>, c: int)
    requires Increasing(rows)
    ensures rows == UpTo(rows, c) + Above(rows, c)
  {
    if rows == [] {
    } else {
      var init, last := rows[..|rows| - 1], rows[|rows| - 1];
      UpToThenAbove(init, c);
      AboveSnoc(init, last, c);
      assert rows == init + [last];
      if last.id <= c {
        NoneAbove(init, c);
      } else {
        Associate(UpTo(init, c), Above(init, c), [last]);
      }
    }
  }

  lemma Associate<T>(a: seq<T>, b: seq<T>, c: seq<T>)
    ensures (a + b) + c == a + (b + c)
    ensures a + [] == a
  {
  }

  lemma AboveSnoc(rows: seq<Change>, r: Change, c: int)
    ensures Above(rows + [r], c) == Above(rows, c) + (if r.id > c then [r] else [])
  {
    AboveAppend(rows, [r], c);
    assert [r][1..] == [];
  }

  lemma {:induction false} UpToAll(rows: seq<Change>, c: int)
    requires forall i :: 0 <= i < |rows| ==> rows[i].id <= c
    ensures UpTo(rows, c) == rows
  {
    if rows == [] {
    } else {
      var init, last := rows[..|rows| - 1], rows[|rows| - 1];
      UpToAll(init, c);
      assert rows == init + [last];
    }
  }

  lemma UpToSnoc(rows: seq<Change>, r: Change, c: int)
    requires r.id > c
    ensures UpTo(rows + [r], c) == UpTo(rows, c)
  {
    assert (rows + [r])[..|rows|] == rows;
  }

  lemma CancelSuffix<T>(x: seq<T>, q: seq<T>, y: seq<T>, b: seq<T>)
    requires x + (q + b) == y + b
    ensures y == x + q
  {
    assert x + (q + b) == (x + q) + b;
    assert ((x + q) + b)[..|x + q|] == x + q && (y + b)[..|y|] == y;
  }

  /** Cutting the rows above one cursor at a second one cuts the rows up to the second one at the first. */
  lemma CutsAgree(rows: seq<Change>, a: int, b: int, q: seq<Change>)
    requires Increasing(rows) && Above(rows, a) == q + Above(rows, b)
    ensures UpTo(rows, b) == UpTo(rows, a) + q
  {
    UpToThenAbove(rows, a);
    UpToThenAbove(rows, b);
    CancelSuffix(UpTo(rows, a), q, UpTo(rows, b), Above(rows, b));
  }

  // ----- what holds in every reachable state -----

  ghost predicate Sound(s: Sys) {
    && ValidLog(s.log)
    && Increasing(s.history)
    && (forall i :: 0 <= i < |s.history| ==> s.history[i].id <= s.log.lastId)
    && s.since <= |s.history|
    && s.client.cursor <= s.log.lastId
    && (!s.client.phase.Idle? ==> s.client.cursor <= s.client.phase.page.cursor <= s.log.lastId)
  }

  /** The page brings the client from the rows up to its cursor to the rows up to the page's cursor. */
  ghost predicate PageFits(s: Sys, page: Page)
    requires s.since <= |s.history|
  {
    exists q :: page.rows == Fold(q) && UpTo(News(s), page.cursor) == UpTo(News(s), s.client.cursor) + q
  }

  ghost predicate ViewFits(s: Sys)
    requires s.since <= |s.history|
  {
    s.client.view == Replay(s.base, UpTo(News(s), s.client.cursor))
  }

  lemma SoundStep(s: Sys, e: Event)
    requires Sound(s)
    ensures Sound(Step(s, e))
  {
    match e
    case Write(change) => SoundWrite(s, change);
    case Compact(cutoff) => var k := CompactedIsSuffix(s.log, cutoff);
    case PullRows(limit) =>
      if s.client.phase.Idle? {
        SoundPull(s, limit);
      }
    case _ =>
  }

  lemma SoundWrite(s: Sys, change: Change)
    requires Sound(s)
    ensures Sound(Step(s, Write(change)))
  {
  }

  lemma SoundPull(s: Sys, limit: int)
    requires Sound(s) && s.client.phase.Idle?
    ensures Sound(Step(s, PullRows(limit)))
  {
    PageSplits(s.log.rows, s.client.cursor, limit);
  }

  lemma CompactedIsSuffix(log: Log, cutoff: int) returns (k: nat)
    requires ValidLog(log)
    ensures k <= |log.rows| && Compacted(log, cutoff).rows == log.rows[k..]
    ensures ValidLog(Compacted(log, cutoff))
    ensures EpochOf(Compacted(log, cutoff)) == if k > 0 && log.epochRow.Some? then EpochOf(log) + 1 else EpochOf(log)
    ensures Compacted(log, cutoff).epochRow.Some? == log.epochRow.Some?
    ensures forall d :: d in Compacted(log, cutoff).devices ==> d in log.devices && Compacted(log, cutoff).devices[d] == log.devices[d]
    ensures forall d, i :: d in Compacted(log, cutoff).devices && 0 <= i < k ==> log.rows[i].id < log.devices[d].cursor
  {
    var devices := Unexpired(log.devices, cutoff);
    var w := Watermark(devices);
    if w <= 0 {
      k := 0;
    } else {
      k := AboveIsSuffix(log.rows, w - 1);
    }
  }

  /** A row written later does not change what was read up to an older cursor. */
  lemma NewsGrow(s: Sys, change: Change)
    requires Sound(s) && s.log.lastId + 1 < I63
    ensures var t := Step(s, Write(change));
            && News(t) == News(s) + [change.(id := s.log.lastId + 1)]
            && forall c: nat :: c <= s.log.lastId ==> UpTo(News(t), c) == UpTo(News(s), c)
  {
    var r := change.(id := s.log.lastId + 1);
    assert (s.history + [r])[s.since..] == News(s) + [r];
    forall c: nat | c <= s.log.lastId ensures UpTo(News(s) + [r], c) == UpTo(News(s), c) {
      UpToSnoc(News(s), r, c);
    }
  }

  /** Taking in a fitting page keeps the replica fitting. */
  lemma DeliverFits(s: Sys, page: Page, epoch: nat)
    requires s.since <= |s.history| && ViewFits(s) && PageFits(s, page)
    ensures ViewFits(s.(client := Received(s.client, page, epoch)))
  {
    var q :| page.rows == Fold(q) && UpTo(News(s), page.cursor) == UpTo(News(s), s.client.cursor) + q;
    FoldRefinesReplay(s.client.view, q);
    ReplayAppend(s.base, UpTo(News(s), s.client.cursor), q);
  }

  /** A page read from a log that still has every unread row fits. */
  lemma PulledFits(s: Sys, limit: int)
    requires Sound(s) && Above(s.log.rows, s.client.cursor) == Above(News(s), s.client.cursor)
    ensures PageFits(s, Pulled(s.log.rows, s.client.cursor, limit))
  {
    var after := s.client.cursor;
    var p := PageOf(s.log.rows, after, limit);
    PageSplits(s.log.rows, after, limit);
    AboveAbove(s.log.rows, after, p.cursor);
    AboveAbove(News(s), after, p.cursor);
    CutsAgree(News(s), after, p.cursor, p.rows);
    assert Pulled(s.log.rows, after, limit).rows == Fold(p.rows);
  }

  // ----- the epoch guard -----

  /** The client has just read its inventory: an epoch, and after it the cursor. */
  ghost predicate Started(s: Sys) {
    && Sound(s) && s.log.epochRow.Some?
    && s.client.epoch <= EpochOf(s.log)
    && s.since == |s.history| && s.oldRows == s.log.rows && s.client.cursor == MaxId(s.log.rows)
    && s.client.view == s.base && s.client.trusted && s.client.phase.Idle?
  }

  /** While the epoch is the client's, nothing was deleted and the pages in flight are complete. */
  ghost predicate Guarded(s: Sys) {
    && Sound(s) && s.log.epochRow.Some? && s.client.epoch <= EpochOf(s.log)
    && (forall i :: 0 <= i < |s.oldRows| ==> s.oldRows[i].id <= s.client.cursor)
    && (s.client.epoch == EpochOf(s.log) ==> s.log.rows == s.oldRows + News(s))
    && (s.client.trusted ==> ViewFits(s))
    && (s.client.phase.HaveRows? && s.client.epoch == EpochOf(s.log) ==> PageFits(s, s.client.phase.page))
    && ((s.client.phase.HaveEpoch? || s.client.phase.Saved?) && s.client.epoch == s.client.phase.epoch
        ==> PageFits(s, s.client.phase.page))
  }

  lemma StartIsGuarded(s: Sys)
    requires Started(s)
    ensures Guarded(s)
  {
    assert News(s) == [] && s.oldRows + [] == s.oldRows;
  }

  lemma PageStillFits(s: Sys, change: Change, page: Page)
    requires Sound(s) && s.log.lastId + 1 < I63 && page.cursor <= s.log.lastId && PageFits(s, page)
    ensures PageFits(Step(s, Write(change)), page)
  {
    NewsGrow(s, change);
    var q :| page.rows == Fold(q) && UpTo(News(s), page.cursor) == UpTo(News(s), s.client.cursor) + q;
    var t := Step(s, Write(change));
    assert UpTo(News(t), page.cursor) == UpTo(News(t), t.client.cursor) + q;
  }

  lemma GuardedWrite(s: Sys, change: Change)
    requires Guarded(s) && s.log.lastId + 1 < I63
    ensures Guarded(Step(s, Write(change)))
  {
    var t := Step(s, Write(change));
    SoundStep(s, Write(change));
    NewsGrow(s, change);
    var r := change.(id := s.log.lastId + 1);
    assert s.oldRows + (News(s) + [r]) == (s.oldRows + News(s)) + [r];
    if !s.client.phase.Idle? && PageFits(s, s.client.phase.page) {
      PageStillFits(s, change, s.client.phase.page);
    }
  }

  /** A page read while the epoch is the client's fits. */
  lemma GuardedPageFits(s: Sys, limit: int)
    requires Guarded(s) && s.client.epoch == EpochOf(s.log)
    ensures PageFits(s, Pulled(s.log.rows, s.client.cursor, limit))
  {
    AboveAppend(s.oldRows, News(s), s.client.cursor);
    NoneAbove(s.oldRows, s.client.cursor);
    PulledFits(s, limit);
  }

  lemma GuardedWithPage(s: Sys, t: Sys, page: Page)
    requires Guarded(s) && Sound(t) && t == s.(client := s.client.(phase := HaveRows(page)))
    requires s.client.epoch == EpochOf(s.log) ==> PageFits(s, page)
    ensures Guarded(t)
  {
    SamePages(s, t);
  }

  lemma GuardedStep(s: Sys, e: Event)
    requires Guarded(s)
    ensures Guarded(Step(s, e))
  {
    SoundStep(s, e);
    match e
    case Write(change) =>
      if s.log.lastId + 1 < I63 {
        GuardedWrite(s, change);
      }
    case Compact(cutoff) =>
      var k := CompactedIsSuffix(s.log, cutoff);
      SamePages(s, Step(s, e));
    case PullRows(limit) =>
      if s.client.phase.Idle? {
        if s.client.epoch == EpochOf(s.log) {
          GuardedPageFits(s, limit);
        }
        GuardedWithPage(s, Step(s, e), Pulled(s.log.rows, s.client.cursor, limit));
      }
    case Deliver =>
      if s.client.phase.Saved? && s.client.trusted && s.client.epoch == s.client.phase.epoch {
        DeliverFits(s, s.client.phase.page, s.client.phase.epoch);
      }
    case _ => SamePages(s, Step(s, e));
  }

  /** Steps that touch neither history nor the client's cursor leave every page as fitting as it was. */
  lemma SamePages(s: Sys, t: Sys)
    requires Sound(s) && t.since == s.since && t.history == s.history && t.client.cursor == s.client.cursor
    ensures forall page :: PageFits(s, page) ==> PageFits(t, page)
  {
    forall page | PageFits(s, page) ensures PageFits(t, page) {
      var q :| page.rows == Fold(q) && UpTo(News(s), page.cursor) == UpTo(News(s), s.client.cursor) + q;
      assert UpTo(News(t), page.cursor) == UpTo(News(t), t.client.cursor) + q;
    }
  }

  lemma {:induction false} GuardedRun(s: Sys, es: seq<Event>)
    requires Guarded(s)
    ensures Guarded(Run(s, es))
  {
    if es == [] {
    } else {
      GuardedRun(s, es[..|es| - 1]);
      GuardedStep(Run(s, es[..|es| - 1]), es[|es| - 1]);
    }
  }

  /** As long as every response carried the inventory's epoch, the client has received every change appended since
      the inventory up to its cursor, whatever was written, expired or compacted in between. */
  lemma EpochGuard(s: Sys, es: seq<Event>)
    requires Started(s)
    ensures var t := Run(s, es);
            t.since <= |t.history|
            && (t.client.trusted ==> t.client.view == Replay(t.base, UpTo(News(t), t.client.cursor)))
  {
    StartIsGuarded(s);
    GuardedRun(s, es);
  }

  /** What that means for one key: the replica holds the key's latest change among those rows. */
  lemma LatestChangeReceived(s: Sys, es: seq<Event>, r: Change)
    requires Started(s) && Run(s, es).client.trusted && Run(s, es).since <= |Run(s, es).history|
    requires IsNewest(UpTo(News(Run(s, es)), Run(s, es).client.cursor), r)
    ensures r.foldKey in Run(s, es).client.view && Run(s, es).client.view[r.foldKey] == r
  {
    var t := Run(s, es);
    EpochGuard(s, es);
    ReplayHoldsNewest(t.base, UpTo(News(t), t.client.cursor), r.foldKey);
  }

  /** Reading the epoch before the rows would lose changes: here compaction runs between the two reads, the response
      carries the client's epoch, and the only row of key "a" is gone. */
  lemma EpochFirstWouldMiss(log: Log, rows: seq<Change>)
    requires rows == [Row(1, "a"), Row(2, "b")]
    requires log == Log(rows, 2, map["other" := DeviceCursor("u", 2, 1, 0)], Some(1))
    ensures ValidLog(log)
    ensures var epochRead, later := EpochOf(log), Compacted(log, 0);
            && epochRead == 1
            && EpochOf(later) == 2
            && "a" in Replay(map[], rows)
            && "a" !in Replay(map[], Pulled(later.rows, 0, 100).rows)
  {
    TwoRows(rows);
    assert Unexpired(log.devices, 0) == log.devices;
    assert log.devices["other"].cursor == 2 && Watermark(log.devices) == 2;
    assert Compacted(log, 0).rows == [Row(2, "b")];
  }

  lemma TwoRows(rows: seq<Change>)
    requires rows == [Row(1, "a"), Row(2, "b")]
    ensures Above(rows, 0) == rows && Above(rows, 1) == Above(Above(rows, 1), 0) == [Row(2, "b")]
    ensures UpTo(rows, 0) == []
    ensures "a" in Replay(map[], rows) && Replay(map[], Fold([Row(2, "b")])) == map["b" := Row(2, "b")]
  {
    var a, b := [Row(1, "a")], [Row(2, "b")];
    assert rows[1..] == b && b[1..] == [] && rows[..|rows| - 1] == a && a[..0] == [] && b[..0] == [];
    assert Above(b, 1) == b && Above(b, 0) == b;
    assert UpTo(a, 0) == [];
    assert Fold(b) == Without([], "b") + b == b;
    assert Replay(map[], a) == map["a" := Row(1, "a")];
  }

  function Row(id: nat, key: string): Change {
    Change(id, "memo", key, "upsert", "content", NoPayload, key, 0)
  }

  // ----- what compaction leaves to a registered device -----

  /** The client's device is registered at or below its cursor, and every row above that registration is still there. */
  ghost predicate Retained(s: Sys) {
    var c := s.client;
    && Sound(s) && ViewFits(s)
    && (forall i :: 0 <= i < s.since ==> s.history[i].id <= c.cursor)
    && c.device in s.log.devices
    && s.log.devices[c.device].cursor <= (if c.phase.Saved? then c.phase.page.cursor else c.cursor)
    && Above(s.log.rows, s.log.devices[c.device].cursor) == Above(s.history, s.log.devices[c.device].cursor)
    && (!c.phase.Idle? ==> PageFits(s, c.phase.page))
  }

  /** The client alone moves its device's cursor, the device does not expire, and no response is lost once its cursor
      has been recorded. */
  predicate Gentle(s: Sys, e: Event) {
    match e
    case Record(device, _, _, _) => device != s.client.device
    case Compact(cutoff) => s.client.device in s.log.devices && s.log.devices[s.client.device].lastSeen >= cutoff
    case Lose => !s.client.phase.Saved?
    case _ => true
  }

  ghost predicate GentleRun(s: Sys, es: seq<Event>) {
    es == [] || (GentleRun(s, es[..|es| - 1]) && Gentle(Run(s, es[..|es| - 1]), es[|es| - 1]))
  }

  lemma UnreadRowsAreThere(s: Sys)
    requires Retained(s) && !s.client.phase.Saved?
    ensures Above(s.log.rows, s.client.cursor) == Above(s.history, s.client.cursor) == Above(News(s), s.client.cursor)
  {
    var reg := s.log.devices[s.client.device].cursor;
    AboveAbove(s.log.rows, reg, s.client.cursor);
    AboveAbove(s.history, reg, s.client.cursor);
    assert s.history == s.history[..s.since] + News(s);
    AboveAppend(s.history[..s.since], News(s), s.client.cursor);
    NoneAbove(s.history[..s.since], s.client.cursor);
  }

  lemma SameRowsAbove(rows: seq<Change>, history: seq<Change>, r: Change, c: int)
    requires Above(rows, c) == Above(history, c)
    ensures Above(rows + [r], c) == Above(history + [r], c)
  {
    AboveSnoc(rows, r, c);
    AboveSnoc(history, r, c);
  }

  lemma ViewStillFits(s: Sys, change: Change)
    requires Sound(s) && ViewFits(s) && s.log.lastId + 1 < I63
    ensures ViewFits(Step(s, Write(change)))
  {
    NewsGrow(s, change);
  }

  lemma RegisteredWrite(s: Sys, change: Change)
    requires s.client.device in s.log.devices && s.since <= |s.history|
    requires Above(s.log.rows, s.log.devices[s.client.device].cursor) == Above(s.history, s.log.devices[s.client.device].cursor)
    ensures var t := Step(s, Write(change));
            Above(t.log.rows, s.log.devices[s.client.device].cursor) == Above(t.history, s.log.devices[s.client.device].cursor)
  {
    if s.log.lastId + 1 < I63 {
      SameRowsAbove(s.log.rows, s.history, change.(id := s.log.lastId + 1), s.log.devices[s.client.device].cursor);
    }
  }

  lemma OldRowsWrite(s: Sys, change: Change, c: int)
    requires s.since <= |s.history| && forall i :: 0 <= i < s.since ==> s.history[i].id <= c
    ensures var t := Step(s, Write(change)); forall i :: 0 <= i < t.since ==> t.history[i].id <= c
  {
  }

  lemma RetainedWrite(s: Sys, change: Change)
    requires Retained(s) && s.log.lastId + 1 < I63
    ensures Retained(Step(s, Write(change)))
  {
    SoundStep(s, Write(change));
    ViewStillFits(s, change);
    RegisteredWrite(s, change);
    OldRowsWrite(s, change, s.client.cursor);
    if !s.client.phase.Idle? {
      PageStillFits(s, change, s.client.phase.page);
    }
  }

  /** Every row above `c` is at or above the lowest cursor that compaction keeps: what a caller can check beforehand. */
  ghost predicate Spares(log: Log, cutoff: int, c: int) {
    forall i :: 0 <= i < |log.rows| && log.rows[i].id > c ==> log.rows[i].id >= Watermark(Unexpired(log.devices, cutoff))
  }

  lemma AboveSuffix(rows: seq<Change>, c: int, j: nat, k: nat)
    requires Increasing(rows) && j <= |rows| && k <= |rows|
    requires forall i :: 0 <= i < |rows| ==> (rows[i].id > c <==> j <= i)
    ensures Above(rows[k..], c) == if k <= j then rows[j..] else rows[k..]
  {
    var m := AboveIsSuffix(rows[k..], c);
    assert k + m == if k <= j then j else k by {
      assert m < |rows| - k ==> rows[k..][m] == rows[k + m];
      assert m > 0 ==> rows[k..][m - 1] == rows[k + m - 1];
    }
    assert rows[k..][m..] == rows[k + m..];
  }

  lemma SameSuffixIff<T>(all: seq<T>, j: nat, k: nat)
    requires j <= |all| && k <= |all|
    ensures (if k <= j then all[j..] else all[k..]) == all[j..] <==> k <= j
  {
    assert |all[j..]| == |all| - j && |all[k..]| == |all| - k;
  }

  /** Taking only the rows from `w` on leaves all rows above `c` exactly when none of those is below `w`. */
  lemma FromAboveIff(rows: seq<Change>, c: int, w: int)
    requires Increasing(rows)
    ensures Above(Above(rows, w - 1), c) == Above(rows, c) <==>
            forall i :: 0 <= i < |rows| && rows[i].id > c ==> rows[i].id >= w
  {
    var k := AboveIsSuffix(rows, w - 1);
    var j := AboveIsSuffix(rows, c);
    AboveSuffix(rows, c, j, k);
    SameSuffixIff(rows, j, k);
    if j < k {
      assert rows[j].id > c && rows[j].id < w;
    }
  }

  /** Compaction leaves all rows above a cursor exactly when none of them is below the lowest cursor it keeps. */
  lemma CompactionSparesIff(log: Log, cutoff: int, c: int)
    requires ValidLog(log)
    ensures Above(Compacted(log, cutoff).rows, c) == Above(log.rows, c) <==> Spares(log, cutoff, c)
  {
    FromAboveIff(log.rows, c, Watermark(Unexpired(log.devices, cutoff)));
  }

  /** So nothing above the cursor of any device it keeps is deleted. */
  lemma CompactionSparesUnread(log: Log, cutoff: int, device: string)
    requires ValidLog(log) && device in Compacted(log, cutoff).devices
    ensures Above(Compacted(log, cutoff).rows, log.devices[device].cursor) == Above(log.rows, log.devices[device].cursor)
  {
    assert device in Unexpired(log.devices, cutoff);
    CompactionSparesIff(log, cutoff, log.devices[device].cursor);
  }

  lemma RetainedCompact(s: Sys, cutoff: int)
    requires Retained(s) && Gentle(s, Compact(cutoff))
    ensures Retained(Step(s, Compact(cutoff)))
  {
    var t := Step(s, Compact(cutoff));
    SoundStep(s, Compact(cutoff));
    SamePages(s, t);
    assert s.client.device in t.log.devices;
    CompactionSparesUnread(s.log, cutoff, s.client.device);
    var k := CompactedIsSuffix(s.log, cutoff);
  }

  lemma RetainedPull(s: Sys, limit: int)
    requires Retained(s) && s.client.phase.Idle?
    ensures Retained(Step(s, PullRows(limit)))
  {
    var t := Step(s, PullRows(limit));
    SoundStep(s, PullRows(limit));
    UnreadRowsAreThere(s);
    PulledFits(s, limit);
    assert PageFits(t, t.client.phase.page);
  }

  lemma RetainedSave(s: Sys, user: string, now: nat)
    requires Retained(s) && s.client.phase.HaveEpoch?
    ensures Retained(Step(s, SaveCursor(user, now)))
  {
    var t, page := Step(s, SaveCursor(user, now)), s.client.phase.page;
    SoundStep(s, SaveCursor(user, now));
    SamePages(s, t);
    UnreadRowsAreThere(s);
    AboveAbove(s.log.rows, s.client.cursor, page.cursor);
    AboveAbove(s.history, s.client.cursor, page.cursor);
  }

  lemma RetainedDeliver(s: Sys)
    requires Retained(s) && s.client.phase.Saved?
    ensures Retained(Step(s, Deliver))
  {
    SoundStep(s, Deliver);
    DeliverFits(s, s.client.phase.page, s.client.phase.epoch);
  }

  lemma RetainedStep(s: Sys, e: Event)
    requires Retained(s) && Gentle(s, e)
    ensures Retained(Step(s, e))
  {
    SoundStep(s, e);
    match e
    case Write(change) =>
      if s.log.lastId + 1 < I63 {
        RetainedWrite(s, change);
      }
    case Compact(cutoff) => RetainedCompact(s, cutoff);
    case PullRows(limit) =>
      if s.client.phase.Idle? {
        RetainedPull(s, limit);
      }
    case SaveCursor(user, now) =>
      if s.client.phase.HaveEpoch? {
        RetainedSave(s, user, now);
      }
    case Deliver =>
      if s.client.phase.Saved? {
        RetainedDeliver(s);
      }
    case _ => SamePages(s, Step(s, e));
  }

  lemma {:induction false} RetainedRun(s: Sys, es: seq<Event>)
    requires Retained(s) && GentleRun(s, es)
    ensures Retained(Run(s, es))
  {
    if es == [] {
    } else {
      RetainedRun(s, es[..|es| - 1]);
      RetainedStep(Run(s, es[..|es| - 1]), es[|es| - 1]);
    }
  }

  /** Compaction never hides unread changes from a registered device, however often it runs and whatever it does to the
      epoch: all rows above the cursor last returned are in the log, and the replica has all changes up to it. */
  lemma NothingHidden(s: Sys, es: seq<Event>)
    requires Retained(s) && GentleRun(s, es)
    ensures var t := Run(s, es);
            && t.since <= |t.history|
            && t.client.view == Replay(t.base, UpTo(News(t), t.client.cursor))
            && (!t.client.phase.Saved? ==> Above(t.log.rows, t.client.cursor) == Above(t.history, t.client.cursor))
  {
    RetainedRun(s, es);
    if !Run(s, es).client.phase.Saved? {
      UnreadRowsAreThere(Run(s, es));
    }
  }

  lemma {:induction false} StartKept(s: Sys, es: seq<Event>)
    ensures Run(s, es).since == s.since && Run(s, es).base == s.base
  {
    if es == [] {
    } else {
      StartKept(s, es[..|es| - 1]);
    }
  }

  /** A client that started from nothing and has reached the newest change has replayed the whole history. */
  lemma CaughtUp(t: Sys)
    requires Sound(t) && ViewFits(t) && t.since == 0 && t.base == map[] && t.client.cursor >= MaxId(t.history)
    ensures t.client.view == Replay(map[], t.history)
  {
    assert News(t) == t.history;
    BoundedByMax(t.history);
    forall i | 0 <= i < |t.history| ensures t.history[i].id <= t.client.cursor {
      assert t.history[i] in t.history;
    }
    UpToAll(t.history, t.client.cursor);
  }

  lemma WholeHistory(s: Sys, es: seq<Event>)
    requires Retained(s) && GentleRun(s, es) && s.since == 0 && s.base == map[]
    requires Run(s, es).client.cursor >= MaxId(Run(s, es).history)
    ensures Run(s, es).client.view == Replay(map[], Run(s, es).history)
  {
    RetainedRun(s, es);
    StartKept(s, es);
    CaughtUp(Run(s, es));
  }

  const LOST_RUN: seq<Event> := [PullRows(2), PullEpoch, SaveCursor("u", 0), Lose, Compact(0)]

  ghost predicate BeforeLoss(s: Sys, rows: seq<Change>) {
    && rows == [Row(1, "a"), Row(2, "b")]
    && s == Sys(Log(rows, 2, map["me" := DeviceCursor("u", 0, 1, 0)], Some(1)), rows,
                Client("me", 1, 0, map[], true, Idle), 0, [], map[])
  }

  lemma BeforeLossRetained(s: Sys, rows: seq<Change>)
    requires BeforeLoss(s, rows)
    ensures Retained(s)
  {
    TwoRows(rows);
    assert News(s) == rows;
  }

  /** A response lost after its cursor was recorded breaks that promise: compaction then deletes a row the client
      never got. The epoch guard still notices. */
  lemma LostResponseHides(s: Sys, rows: seq<Change>)
    requires BeforeLoss(s, rows)
    ensures Retained(s)
    ensures var t := Run(s, LOST_RUN);
            && t.client == s.client
            && Above(t.history, t.client.cursor) == rows
            && Above(t.log.rows, t.client.cursor) == [Row(2, "b")]
            && EpochOf(t.log) != t.client.epoch
  {
    BeforeLossRetained(s, rows);
    LostRun(s);
    TwoRows(rows);
    assert PageOf(rows, 0, 2) == Page(rows, 2, false);
    LostEffect(s, 2);
    AfterLoss(Recorded(s.log, "me", "u", 2, 0), rows);
  }

  lemma LostRun(s: Sys)
    ensures Run(s, LOST_RUN) == Step(Step(Step(Step(Step(s, PullRows(2)), PullEpoch), SaveCursor("u", 0)), Lose), Compact(0))
  {
    var es := LOST_RUN;
    assert es[..4][..3] == es[..3] && es[..3][..2] == es[..2] && es[..2][..1] == es[..1] && es[..1][..0] == [];
    assert Run(s, es[..1]) == Step(s, PullRows(2));
    assert Run(s, es[..2]) == Step(Run(s, es[..1]), PullEpoch);
    assert Run(s, es[..3]) == Step(Run(s, es[..2]), SaveCursor("u", 0));
    assert Run(s, es[..4]) == Step(Run(s, es[..3]), Lose);
  }

  /** All that is left of a lost pull is its recorded cursor. */
  lemma LostEffect(s: Sys, cursor: nat)
    requires s.client.phase.Idle? && s.client.cursor < U64 && cursor < U64
    requires Pulled(s.log.rows, s.client.cursor, 2).cursor == cursor
    ensures Step(Step(Step(Step(Step(s, PullRows(2)), PullEpoch), SaveCursor("u", 0)), Lose), Compact(0))
            == s.(log := Compacted(Recorded(s.log, s.client.device, "u", cursor, 0), 0))
  {
    var c := s.client;
    var s1 := Step(s, PullRows(2));
    assert s1.client.(phase := Idle) == c && s1.client.phase.HaveRows?;
    var s2 := Step(s1, PullEpoch);
    assert s2.client.(phase := Idle) == c && s2.client.phase.HaveEpoch? && s2.log == s.log;
    var s3 := Step(s2, SaveCursor("u", 0));
    assert s3.client.(phase := Idle) == c;
    assert Step(s3, Lose).client == c;
  }

  lemma AfterLoss(log: Log, rows: seq<Change>)
    requires rows == [Row(1, "a"), Row(2, "b")]
    requires log == Log(rows, 2, map["me" := DeviceCursor("u", 2, 1, 0)], Some(1))
    ensures Compacted(log, 0).rows == [Row(2, "b")] && EpochOf(Compacted(log, 0)) == 2
  {
    TwoRows(rows);
    assert Unexpired(log.devices, 0) == log.devices;
    assert log.devices["me"].cursor == 2 && Watermark(log.devices) == 2;
  }

  // ----- the newest id -----

  /** Compaction lowers the newest id exactly when a recorded cursor lies beyond every row of a non-empty log. */
  lemma CompactionLowersMaxIff(log: Log, cutoff: int)
    requires ValidLog(log)
    ensures MaxId(Compacted(log, cutoff).rows) < MaxId(log.rows) <==>
            log.rows != [] && Watermark(Unexpired(log.devices, cutoff)) > MaxId(log.rows)
    ensures MaxId(Compacted(log, cutoff).rows) <= MaxId(log.rows)
  {
    var w := Watermark(Unexpired(log.devices, cutoff));
    if w > 0 {
      var k := AboveIsSuffix(log.rows, w - 1);
    }
  }

  /** Every recorded cursor, and the cursors the client holds, came from the server. */
  ghost predicate ServerIssued(s: Sys) {
    && Sound(s)
    && (forall d :: d in s.log.devices ==> s.log.devices[d].cursor <= MaxId(s.log.rows))
    && s.client.cursor <= MaxId(s.log.rows)
    && (!s.client.phase.Idle? ==> s.client.phase.page.cursor <= MaxId(s.log.rows))
  }

  /** With server-issued cursors only, `max_cursor` never decreases. */
  lemma MaxCursorStep(s: Sys, e: Event)
    requires ServerIssued(s) && (e.Record? ==> e.cursor <= MaxId(s.log.rows))
    ensures ServerIssued(Step(s, e)) && MaxId(Step(s, e).log.rows) >= MaxId(s.log.rows)
  {
    SoundStep(s, e);
    match e
    case Compact(cutoff) =>
      CompactionLowersMaxIff(s.log, cutoff);
      var k := CompactedIsSuffix(s.log, cutoff);
      var devices := Unexpired(s.log.devices, cutoff);
      assert Watermark(devices) <= MaxId(s.log.rows);
    case PullRows(limit) =>
      if s.client.phase.Idle? {
        PageSplits(s.log.rows, s.client.cursor, limit);
        BoundedByMax(s.log.rows);
      }
    case _ =>
  }

  lemma BoundedByMax(rows: seq<Change>)
    requires Increasing(rows)
    ensures forall r :: r in rows ==> r.id <= MaxId(rows)
  {
  }

  ghost predicate ServerRun(s: Sys, es: seq<Event>) {
    es == [] || (ServerRun(s, es[..|es| - 1])
                 && (es[|es| - 1].Record? ==> es[|es| - 1].cursor <= MaxId(Run(s, es[..|es| - 1]).log.rows)))
  }

  lemma {:induction false} MaxCursorRun(s: Sys, es: seq<Event>)
    requires ServerIssued(s) && ServerRun(s, es)
    ensures ServerIssued(Run(s, es)) && MaxId(Run(s, es).log.rows) >= MaxId(s.log.rows)
  {
    if es == [] {
    } else {
      MaxCursorRun(s, es[..|es| - 1]);
      MaxCursorStep(Run(s, es[..|es| - 1]), es[|es| - 1]);
    }
  }

  /** Then compaction never takes the newest row either: it stays in the log. */
  lemma NewestRowStep(s: Sys, e: Event)
    requires ServerIssued(s) && (e.Record? ==> e.cursor <= MaxId(s.log.rows)) && MaxId(s.log.rows) == MaxId(s.history)
    ensures MaxId(Step(s, e).log.rows) == MaxId(Step(s, e).history)
  {
    if e.Compact? {
      MaxCursorStep(s, e);
      CompactionLowersMaxIff(s.log, e.cutoff);
    }
  }

  lemma {:induction false} NewestRowRun(s: Sys, es: seq<Event>)
    requires ServerIssued(s) && ServerRun(s, es) && MaxId(s.log.rows) == MaxId(s.history)
    ensures MaxId(Run(s, es).log.rows) == MaxId(Run(s, es).history)
  {
    if es == [] {
    } else {
      MaxCursorRun(s, es[..|es| - 1]);
      NewestRowRun(s, es[..|es| - 1]);
      NewestRowStep(Run(s, es[..|es| - 1]), es[|es| - 1]);
    }
  }
}
