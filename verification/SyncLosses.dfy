/** When rows a client has not read can be lost: to a compaction, a lost response, or a gap between two reads. */
module SyncLosses {
  import opened Domain
  import opened Records
  import opened SyncLog
  import opened SyncRuns

  // ----- any run -----

  /** Every row ever appended above the client's cursor is still in the log. */
  predicate Unread(s: Sys) {
    Above(s.log.rows, s.client.cursor) == Above(s.history, s.client.cursor)
  }

  /** What was in the log before the client's inventory has been read. */
  predicate OldRead(s: Sys)
    requires s.since <= |s.history|
  {
    forall i :: 0 <= i < s.since ==> s.history[i].id <= s.client.cursor
  }

  ghost predicate InFlight(s: Sys)
    requires s.since <= |s.history|
  {
    !s.client.phase.Idle? ==> PageFits(s, s.client.phase.page)
  }

  /** The replica has all changes up to the cursor, the log all above it, and a page in flight fits. */
  ghost predicate Intact(s: Sys) {
    Sound(s) && ViewFits(s) && Unread(s) && OldRead(s) && InFlight(s)
  }

  /** No compaction of the run met an unread row below the lowest cursor it kept. */
  ghost predicate AllSpared(s: Sys, es: seq<Event>) {
    es == []
    || (AllSpared(s, es[..|es| - 1])
        && (es[|es| - 1].Compact? ==>
              var t := Run(s, es[..|es| - 1]); Spares(t.log, es[|es| - 1].cutoff, t.client.cursor)))
  }

  /** At no moment of the run is an unread row missing. */
  ghost predicate NeverHidden(s: Sys, es: seq<Event>) {
    Unread(Run(s, es)) && (es == [] || NeverHidden(s, es[..|es| - 1]))
  }

  lemma OnlyLaterAbove(earlier: seq<Change>, later: seq<Change>, c: int)
    requires forall i :: 0 <= i < |earlier| ==> earlier[i].id <= c
    ensures Above(earlier + later, c) == Above(later, c)
  {
    AboveAppend(earlier, later, c);
    NoneAbove(earlier, c);
    assert [] + Above(later, c) == Above(later, c);
  }

  lemma NewsAbove(s: Sys)
    requires Intact(s)
    ensures Above(s.history, s.client.cursor) == Above(News(s), s.client.cursor)
  {
    assert s.history == s.history[..s.since] + News(s);
    OnlyLaterAbove(s.history[..s.since], News(s), s.client.cursor);
  }

  lemma UnreadWrite(s: Sys, change: Change)
    requires Unread(s)
    ensures Unread(Step(s, Write(change)))
  {
    if s.log.lastId + 1 < I63 {
      SameRowsAbove(s.log.rows, s.history, change.(id := s.log.lastId + 1), s.client.cursor);
    }
  }

  lemma OldReadWrite(s: Sys, change: Change)
    requires Sound(s) && OldRead(s)
    ensures var t := Step(s, Write(change)); t.since <= |t.history| && OldRead(t)
  {
  }

  lemma IntactWrite(s: Sys, change: Change)
    requires Intact(s) && s.log.lastId + 1 < I63
    ensures Intact(Step(s, Write(change)))
  {
    SoundStep(s, Write(change));
    ViewStillFits(s, change);
    UnreadWrite(s, change);
    OldReadWrite(s, change);
    if !s.client.phase.Idle? {
      PageStillFits(s, change, s.client.phase.page);
    }
  }

  lemma IntactWithPage(s: Sys, t: Sys, page: Page)
    requires Intact(s) && PageFits(s, page) && Sound(t) && t == s.(client := s.client.(phase := HaveRows(page)))
    ensures Intact(t)
  {
    SamePages(s, t);
  }

  lemma IntactPull(s: Sys, limit: int)
    requires Intact(s) && s.client.phase.Idle?
    ensures Intact(Step(s, PullRows(limit)))
  {
    SoundStep(s, PullRows(limit));
    NewsAbove(s);
    PulledFits(s, limit);
    IntactWithPage(s, Step(s, PullRows(limit)), Pulled(s.log.rows, s.client.cursor, limit));
  }

  lemma SameAboveLater(rows: seq<Change>, history: seq<Change>, a: int, b: int)
    requires a <= b && Above(rows, a) == Above(history, a)
    ensures Above(rows, b) == Above(history, b)
  {
    AboveAbove(rows, a, b);
    AboveAbove(history, a, b);
  }

  lemma UnreadDeliver(s: Sys)
    requires Sound(s) && Unread(s) && s.client.phase.Saved?
    ensures Unread(Step(s, Deliver))
  {
    SameAboveLater(s.log.rows, s.history, s.client.cursor, s.client.phase.page.cursor);
  }

  lemma IntactDeliver(s: Sys)
    requires Intact(s) && s.client.phase.Saved?
    ensures Intact(Step(s, Deliver))
  {
    var page := s.client.phase.page;
    SoundStep(s, Deliver);
    var t := Step(s, Deliver);
    DeliverFits(s, page, s.client.phase.epoch);
    assert t == s.(client := Received(s.client, page, s.client.phase.epoch));
    assert ViewFits(t);
    UnreadDeliver(s);
  }

  /** Steps that leave the client's cursor, its replica and the page in flight alone keep a state intact, if no unread
      row goes missing. */
  lemma IntactQuiet(s: Sys, t: Sys)
    requires Intact(s) && Sound(t) && Unread(t)
    requires t.history == s.history && t.since == s.since && t.base == s.base
    requires t.client.cursor == s.client.cursor && t.client.view == s.client.view
    requires t.client.phase.Idle? || (!s.client.phase.Idle? && t.client.phase.page == s.client.phase.page)
    ensures Intact(t)
  {
    SamePages(s, t);
  }

  lemma UnreadCompact(s: Sys, cutoff: int)
    requires Sound(s) && Unread(s)
    ensures Unread(Step(s, Compact(cutoff))) <==> Spares(s.log, cutoff, s.client.cursor)
  {
    CompactionSparesIff(s.log, cutoff, s.client.cursor);
  }

  lemma IntactCompact(s: Sys, cutoff: int)
    requires Intact(s) && Unread(Step(s, Compact(cutoff)))
    ensures Intact(Step(s, Compact(cutoff)))
  {
    SoundStep(s, Compact(cutoff));
    IntactQuiet(s, Step(s, Compact(cutoff)));
  }

  /** Steps other than writing, compacting, pulling rows and delivering them. */
  predicate Quiet(e: Event) {
    !e.Write? && !e.Compact? && !e.PullRows? && !e.Deliver?
  }

  lemma QuietStep(s: Sys, e: Event)
    requires Quiet(e)
    ensures var t := Step(s, e);
            && t.history == s.history && t.since == s.since && t.base == s.base && t.log.rows == s.log.rows
            && t.client.cursor == s.client.cursor && t.client.view == s.client.view
            && (t.client.phase.Idle? || (!s.client.phase.Idle? && t.client.phase.page == s.client.phase.page))
  {
  }

  lemma IntactStep(s: Sys, e: Event)
    requires Intact(s) && !e.Compact?
    ensures Intact(Step(s, e))
  {
    if Quiet(e) {
      SoundStep(s, e);
      QuietStep(s, e);
      assert Unread(Step(s, e));
      IntactQuiet(s, Step(s, e));
    } else if e.Write? {
      if s.log.lastId + 1 < I63 {
        IntactWrite(s, e.change);
      }
    } else if e.PullRows? {
      if s.client.phase.Idle? {
        IntactPull(s, e.limit);
      }
    } else if s.client.phase.Saved? {
      IntactDeliver(s);
    }
  }

  /** In any run whatever, with lost responses, expiring devices and cursors recorded by anyone, no unread row ever goes
      missing exactly when every compaction finds the unread rows at or above the lowest cursor it keeps; the replica
      then has every change up to its cursor. */
  lemma {:induction false} NeverHiddenIff(s: Sys, es: seq<Event>)
    requires Intact(s)
    ensures NeverHidden(s, es) <==> AllSpared(s, es)
    ensures AllSpared(s, es) ==> Intact(Run(s, es))
  {
    if es == [] {
    } else {
      var t, e := Run(s, es[..|es| - 1]), es[|es| - 1];
      NeverHiddenIff(s, es[..|es| - 1]);
      if AllSpared(s, es[..|es| - 1]) {
        if e.Compact? {
          UnreadCompact(t, e.cutoff);
          if Unread(Step(t, e)) {
            IntactCompact(t, e.cutoff);
          }
        } else {
          IntactStep(t, e);
        }
      }
    }
  }

  lemma SparesNotIff(log: Log, cutoff: int, c: int)
    ensures !Spares(log, cutoff, c) <==> exists r :: r in log.rows && c < r.id < Watermark(Unexpired(log.devices, cutoff))
  {
    if r :| r in log.rows && c < r.id < Watermark(Unexpired(log.devices, cutoff)) {
      var i :| 0 <= i < |log.rows| && log.rows[i] == r;
    }
  }

  lemma UnreadLost(s: Sys)
    requires Intact(s)
    ensures var t := Step(s, Lose); Sound(t) && Unread(t) && t.log == s.log && t.client.cursor == s.client.cursor
  {
    SoundStep(s, Lose);
  }

  /** A response lost after its cursor was recorded: the next compaction hides a row exactly when one above the client's
      own cursor is below the lowest recorded one. */
  lemma {:induction false} LostResponseHidesIff(s: Sys, cutoff: int)
    requires Intact(s) && s.client.phase.Saved?
    ensures var t := Step(Step(s, Lose), Compact(cutoff));
            !Unread(t) <==> exists r :: r in s.log.rows && s.client.cursor < r.id < Watermark(Unexpired(s.log.devices, cutoff))
  {
    UnreadLost(s);
    UnreadCompact(Step(s, Lose), cutoff);
    SparesNotIff(s.log, cutoff, s.client.cursor);
  }

  // ----- gaps in which the client waits -----

  /** What may happen between two steps of one request. */
  predicate Background(e: Event) {
    e.Write? || e.WriteElsewhere? || e.Record? || e.Compact?
  }

  predicate BackgroundRun(es: seq<Event>) {
    forall i :: 0 <= i < |es| ==> Background(es[i])
  }

  /** The log has the unread rows but for the first `k`. */
  ghost predicate Lacks(s: Sys, k: nat) {
    k <= |Above(s.history, s.client.cursor)|
    && Above(s.log.rows, s.client.cursor) == Above(s.history, s.client.cursor)[k..]
  }

  lemma SuffixSnoc<T>(all: seq<T>, k: nat, r: T)
    requires k <= |all|
    ensures (all + [r])[k..] == all[k..] + [r]
  {
  }

  lemma SuffixWritten(rows: seq<Change>, history: seq<Change>, r: Change, c: int, k: nat)
    requires r.id > c && k <= |Above(history, c)| && Above(rows, c) == Above(history, c)[k..]
    ensures k <= |Above(history + [r], c)| && Above(rows + [r], c) == Above(history + [r], c)[k..]
  {
    AboveSnoc(rows, r, c);
    AboveSnoc(history, r, c);
    SuffixSnoc(Above(history, c), k, r);
  }

  lemma LacksWrite(s: Sys, change: Change, k: nat)
    requires Sound(s) && Lacks(s, k)
    ensures Lacks(Step(s, Write(change)), k)
  {
    if s.log.lastId + 1 < I63 {
      SuffixWritten(s.log.rows, s.history, change.(id := s.log.lastId + 1), s.client.cursor, k);
    }
  }

  lemma SuffixOfSuffix<T>(all: seq<T>, k: nat, gone: seq<T>, left: seq<T>)
    requires k <= |all| && all[k..] == gone + left
    ensures k + |gone| <= |all| && left == all[k + |gone|..]
  {
    assert left == all[k..][|gone|..];
  }

  lemma AboveCut(rows: seq<Change>, cut: nat, c: int)
    requires cut <= |rows|
    ensures Above(rows, c) == Above(rows[..cut], c) + Above(rows[cut..], c)
  {
    assert rows == rows[..cut] + rows[cut..];
    AboveAppend(rows[..cut], rows[cut..], c);
  }

  /** What compaction takes from the rows above a cursor is the first of them. */
  lemma CompactionTakes(log: Log, cutoff: int, c: int) returns (gone: seq<Change>)
    requires ValidLog(log)
    ensures Above(log.rows, c) == gone + Above(Compacted(log, cutoff).rows, c)
    ensures gone == [] <==> Spares(log, cutoff, c)
  {
    var cut := CompactedIsSuffix(log, cutoff);
    AboveCut(log.rows, cut, c);
    gone := Above(log.rows[..cut], c);
    EmptyFront(gone, Above(Compacted(log, cutoff).rows, c));
    CompactionSparesIff(log, cutoff, c);
  }

  lemma EmptyFront<T>(a: seq<T>, b: seq<T>)
    ensures a + b == b <==> a == []
  {
    assert |a + b| == |a| + |b|;
  }

  lemma LacksCompact(s: Sys, cutoff: int, k: nat) returns (k': nat)
    requires Sound(s) && Lacks(s, k)
    ensures Lacks(Step(s, Compact(cutoff)), k')
    ensures k' == 0 <==> k == 0 && Spares(s.log, cutoff, s.client.cursor)
  {
    var gone := CompactionTakes(s.log, cutoff, s.client.cursor);
    SuffixOfSuffix(Above(s.history, s.client.cursor), k, gone, Above(Compacted(s.log, cutoff).rows, s.client.cursor));
    k' := k + |gone|;
  }

  lemma {:induction false} BackgroundKeeps(s: Sys, es: seq<Event>)
    requires Sound(s) && BackgroundRun(es)
    ensures var t := Run(s, es); Sound(t) && t.client == s.client && t.since == s.since && t.base == s.base
                                 && t.oldRows == s.oldRows && |t.history| >= |s.history| && t.history[..|s.history|] == s.history
  {
    if es == [] {
    } else {
      BackgroundKeeps(s, es[..|es| - 1]);
      SoundStep(Run(s, es[..|es| - 1]), es[|es| - 1]);
    }
  }

  /** While the client waits, deleted rows stay deleted: some are missing at the end exactly when some compaction was not
      sparing, and they are the oldest of the unread ones. */
  lemma {:induction false} BackgroundLacks(s: Sys, es: seq<Event>) returns (k: nat)
    requires Sound(s) && Unread(s) && BackgroundRun(es)
    ensures Lacks(Run(s, es), k) && (k == 0 <==> AllSpared(s, es))
  {
    if es == [] {
      k := 0;
    } else {
      var init, e := es[..|es| - 1], es[|es| - 1];
      k := BackgroundLacks(s, init);
      BackgroundKeeps(s, init);
      var t := Run(s, init);
      match e
      case Write(change) => LacksWrite(t, change, k);
      case Compact(cutoff) => k := LacksCompact(t, cutoff, k);
      case _ =>
    }
  }

  /** The inventory reads its cursor and records it in two steps. Whatever runs in between, the device ends up protected
      exactly when no compaction in the gap deletes a row above the cursor; an unchanged epoch implies that. */
  lemma {:induction false} InventoryRegistersIff(s: Sys, es: seq<Event>, user: string, now: nat)
    requires Started(s) && MaxId(s.log.rows) == MaxId(s.history) && BackgroundRun(es)
    ensures Retained(Step(Run(s, es), Record(s.client.device, user, s.client.cursor, now))) <==> AllSpared(s, es)
    ensures EpochOf(Run(s, es).log) == s.client.epoch ==> AllSpared(s, es)
  {
    var t, c := Run(s, es), s.client.cursor;
    StartIsIntact(s);
    BackgroundKeeps(s, es);
    var k := BackgroundLacks(s, es);
    assert Unread(t) <==> k == 0;
    if AllSpared(s, es) {
      NeverHiddenIff(s, es);
      var e := Record(t.client.device, user, t.client.cursor, now);
      IntactStep(t, e);
      RegisteredIntact(Step(t, e));
    }
    if EpochOf(t.log) == s.client.epoch {
      SameEpochUnread(s, es);
    }
  }

  lemma StartIsIntact(s: Sys)
    requires Started(s) && MaxId(s.log.rows) == MaxId(s.history)
    ensures Intact(s)
  {
    var c := s.client.cursor;
    NoneAbove(s.log.rows, c);
    NoneAbove(s.history, c);
    assert News(s) == [] && UpTo(News(s), c) == [];
  }

  /** An intact state whose device is registered at its own cursor is protected. */
  lemma RegisteredIntact(u: Sys)
    requires Intact(u) && u.client.phase.Idle?
    requires u.client.device in u.log.devices && u.log.devices[u.client.device].cursor == u.client.cursor
    ensures Retained(u)
  {
  }

  lemma SameLater(a: seq<Change>, b: seq<Change>, later: seq<Change>, c: int)
    requires forall i :: 0 <= i < |a| ==> a[i].id <= c
    requires forall i :: 0 <= i < |b| ==> b[i].id <= c
    ensures Above(a + later, c) == Above(b + later, c)
  {
    OnlyLaterAbove(a, later, c);
    OnlyLaterAbove(b, later, c);
  }

  lemma AtMostMax(rows: seq<Change>)
    requires Increasing(rows)
    ensures forall i :: 0 <= i < |rows| ==> rows[i].id <= MaxId(rows)
  {
    forall i | 0 <= i < |rows| ensures rows[i].id <= MaxId(rows) {
      if i < |rows| - 1 {
        assert rows[i].id < rows[|rows| - 1].id;
      }
    }
  }

  /** While the epoch is the client's, the log has grown by the news, just as the history has. */
  lemma SameEpochRows(s: Sys, es: seq<Event>)
    requires Started(s) && BackgroundRun(es) && EpochOf(Run(s, es).log) == s.client.epoch
    ensures var t := Run(s, es);
            t.since == |s.history| <= |t.history| && t.client.cursor == s.client.cursor
            && t.log.rows == s.oldRows + News(t) && t.history == s.history + News(t)
  {
    StartIsGuarded(s);
    GuardedRun(s, es);
    BackgroundKeeps(s, es);
  }

  lemma SameEpochUnread(s: Sys, es: seq<Event>)
    requires Started(s) && MaxId(s.log.rows) == MaxId(s.history) && BackgroundRun(es)
    requires EpochOf(Run(s, es).log) == s.client.epoch
    ensures Unread(Run(s, es))
  {
    SameEpochRows(s, es);
    AtMostMax(s.history);
    AtMostMax(s.oldRows);
    SameLater(s.oldRows, s.history, News(Run(s, es)), s.client.cursor);
  }

  // ----- the reads of a pull in the other order -----

  /** A pull that reads the epoch, lets `es` happen, and only then reads the rows; its response arrives. */
  ghost function EpochFirstPull(s: Sys, es: seq<Event>, limit: int): Sys
    requires Run(s, es).client.cursor < U64
  {
    var t := Run(s, es);
    t.(client := Received(t.client, Pulled(t.log.rows, t.client.cursor, limit), EpochOf(s.log)))
  }

  /** A row that was appended above the client's cursor and that the log no longer has. */
  predicate Missing(t: Sys, r: Change) {
    r in t.history && r.id > t.client.cursor && r !in t.log.rows
  }

  /** Such a pull keeps the client's trust, but hides a row exactly when a compaction between the reads was not sparing;
      if it brings any row at all, its cursor has passed all the missing ones. */
  lemma {:induction false} EpochFirstHidesIff(s: Sys, es: seq<Event>, limit: int)
    requires Intact(s) && BackgroundRun(es) && EpochOf(s.log) == s.client.epoch
    ensures Run(s, es).client.cursor < U64
    ensures var t, u := Run(s, es), EpochFirstPull(s, es, limit);
            && u.client.trusted == s.client.trusted
            && ((exists r :: Missing(t, r)) <==> !AllSpared(s, es))
            && (forall r :: Missing(t, r) && PageOf(t.log.rows, t.client.cursor, limit).rows != [] ==> r.id <= u.client.cursor)
  {
    var t, c := Run(s, es), s.client.cursor;
    BackgroundKeeps(s, es);
    var k := BackgroundLacks(s, es);
    MissingAreFirst(t, k);
    PageSplits(t.log.rows, c, limit);
    var page := PageOf(t.log.rows, c, limit);
    forall r | Missing(t, r) && page.rows != [] ensures r.id <= page.cursor {
      var last := page.rows[|page.rows| - 1];
      AboveMembers(t.log.rows, c, last);
    }
  }

  /** The missing rows are the first `k` unread ones, older than any that is left. */
  lemma MissingAreFirst(t: Sys, k: nat)
    requires Sound(t) && Lacks(t, k)
    ensures (exists r :: Missing(t, r)) <==> k > 0
    ensures forall r, q :: Missing(t, r) && q in t.log.rows && q.id > t.client.cursor ==> r.id < q.id
  {
    var c, all := t.client.cursor, Above(t.history, t.client.cursor);
    var j := AboveIsSuffix(t.history, c);
    assert Increasing(all);
    forall r ensures r in t.history && r.id > c <==> r in all {
      AboveMembers(t.history, c, r);
    }
    forall r ensures r in t.log.rows && r.id > c <==> r in all[k..] {
      AboveMembers(t.log.rows, c, r);
    }
    if k > 0 {
      assert all[0] in all && all[0] !in all[k..];
      assert Missing(t, all[0]);
    }
  }
}
