/** The todo repository and a pulling client in one machine: every write of the one is a row that the other may pull. */
module TodoSync {
  import opened Domain
  import opened Records
  import opened SyncLog
  import opened Todos
  import TodoRuns
  import SyncRuns

  /** The todo tables, and the log with its clients. */
  datatype Joint = Joint(todos: map<string, Todo>, memos: set<string>, sys: SyncRuns.Sys)

  datatype Event =
    | TodoEvent(op: TodoRuns.Op, now: nat)
    | SyncEvent(event: SyncRuns.Event)

  /** The todo tables with every row ever written. */
  function DbOf(j: Joint): TodoDb {
    TodoDb(j.todos, j.memos, Log(j.sys.history, j.sys.log.lastId, map[], None))
  }

  /** The log after a repository step: one more row, an id used elsewhere, or nothing. */
  ghost function Fed(s: SyncRuns.Sys, log: Log): SyncRuns.Sys {
    if |log.rows| > |s.history| then SyncRuns.Step(s, SyncRuns.Write(log.rows[|log.rows| - 1]))
    else if log.lastId > s.log.lastId then SyncRuns.Step(s, SyncRuns.WriteElsewhere)
    else s
  }

  /** Rows are written by the repositories only. */
  ghost function Step(j: Joint, e: Event): Joint {
    match e
    case TodoEvent(op, now) =>
      var db := TodoRuns.Apply(DbOf(j), op, now);
      Joint(db.todos, db.memos, Fed(j.sys, db.log))
    case SyncEvent(event) => if event.Write? || event.WriteElsewhere? then j else j.(sys := SyncRuns.Step(j.sys, event))
  }

  ghost function Run(j: Joint, es: seq<Event>): Joint {
    if es == [] then j else Step(Run(j, es[..|es| - 1]), es[|es| - 1])
  }

  ghost predicate GentleRun(j: Joint, es: seq<Event>) {
    es == []
    || (GentleRun(j, es[..|es| - 1])
        && (es[|es| - 1].SyncEvent? ==> SyncRuns.Gentle(Run(j, es[..|es| - 1]).sys, es[|es| - 1].event)))
  }

  // ----- what a repository step writes -----

  predicate Grows(log: Log, log': Log) {
    if log'.rows == log.rows then log'.lastId == log.lastId || (log'.lastId == log.lastId + 1 && log'.lastId < I63)
    else
      && log'.lastId == log.lastId + 1 && log'.lastId < I63
      && |log'.rows| == |log.rows| + 1 && log'.rows[..|log.rows|] == log.rows && log'.rows[|log.rows|].id == log'.lastId
  }

  lemma AppendGrows(log: Log, c: Change)
    requires log.lastId + 1 < I63
    ensures Grows(log, Appended(log, c))
  {
  }

  lemma ApplyGrows(db: TodoDb, op: TodoRuns.Op, now: nat)
    ensures Grows(db.log, TodoRuns.Apply(db, op, now).log)
  {
    var after := TodoRuns.Apply(db, op, now);
    if TodoRuns.Enabled(db, op) && after.log.rows != db.log.rows {
      var c := after.log.rows[|after.log.rows| - 1];
      assert after.log == Appended(db.log, c);
      AppendGrows(db.log, c);
    }
  }

  lemma FedHistory(s: SyncRuns.Sys, log: Log)
    requires Grows(Log(s.history, s.log.lastId, map[], None), log)
    ensures Fed(s, log).history == log.rows && Fed(s, log).log.lastId == log.lastId
  {
    if log.rows != s.history {
      assert log.rows == log.rows[..|s.history|] + [log.rows[|s.history|]];
    }
  }

  // ----- every run -----

  ghost predicate Inv(j: Joint) {
    && SyncRuns.Retained(j.sys) && j.sys.since == 0 && j.sys.base == map[]
    && TodoRuns.TableOk(DbOf(j)) && ValidLog(DbOf(j).log)
    && TodoRuns.Converged(Replay(map[], j.sys.history), j.todos)
  }

  /** A registered device with nothing read yet, in a workspace that has had no todo. */
  ghost predicate Start(j: Joint) {
    SyncRuns.Retained(j.sys) && j.sys.since == 0 && j.sys.base == map[] && TodoRuns.Fresh(DbOf(j))
  }

  lemma WriteRetained(s: SyncRuns.Sys, change: Change)
    requires SyncRuns.Retained(s)
    ensures var t := SyncRuns.Step(s, SyncRuns.Write(change)); SyncRuns.Retained(t) && t.since == s.since && t.base == s.base
  {
    SyncRuns.RetainedStep(s, SyncRuns.Write(change));
  }

  lemma ElsewhereRetained(s: SyncRuns.Sys)
    requires SyncRuns.Retained(s)
    ensures var t := SyncRuns.Step(s, SyncRuns.WriteElsewhere); SyncRuns.Retained(t) && t.since == s.since && t.base == s.base
  {
    SyncRuns.RetainedStep(s, SyncRuns.WriteElsewhere);
  }

  lemma FedRetained(s: SyncRuns.Sys, log: Log)
    requires SyncRuns.Retained(s)
    ensures SyncRuns.Retained(Fed(s, log)) && Fed(s, log).since == s.since && Fed(s, log).base == s.base
  {
    if |log.rows| > |s.history| {
      WriteRetained(s, log.rows[|log.rows| - 1]);
    } else if log.lastId > s.log.lastId {
      ElsewhereRetained(s);
    }
  }

  lemma SameTable(db: TodoDb, db': TodoDb)
    requires db'.todos == db.todos && db'.log.rows == db.log.rows && db'.log.lastId == db.log.lastId
    ensures TodoRuns.TableOk(db) ==> TodoRuns.TableOk(db')
    ensures ValidLog(db.log) ==> ValidLog(db'.log)
  {
  }

  lemma TodoStep(j: Joint, op: TodoRuns.Op, now: nat)
    requires Inv(j)
    ensures Inv(Step(j, TodoEvent(op, now)))
  {
    var db := TodoRuns.Apply(DbOf(j), op, now);
    ApplyGrows(DbOf(j), op, now);
    FedHistory(j.sys, db.log);
    FedRetained(j.sys, db.log);
    TodoRuns.LifecycleStep(DbOf(j), op, now, "");
    TodoRuns.ConvergedStep(DbOf(j), op, now);
    SameTable(db, DbOf(Joint(db.todos, db.memos, Fed(j.sys, db.log))));
  }

  lemma SyncKeepsHistory(s: SyncRuns.Sys, e: SyncRuns.Event)
    requires !e.Write? && !e.WriteElsewhere?
    ensures var t := SyncRuns.Step(s, e);
            t.history == s.history && t.log.lastId == s.log.lastId && t.since == s.since && t.base == s.base
  {
  }

  lemma SyncStep(j: Joint, e: SyncRuns.Event)
    requires Inv(j) && SyncRuns.Gentle(j.sys, e)
    ensures Inv(Step(j, SyncEvent(e)))
  {
    if !e.Write? && !e.WriteElsewhere? {
      SyncRuns.RetainedStep(j.sys, e);
      SyncKeepsHistory(j.sys, e);
      assert DbOf(Step(j, SyncEvent(e))) == DbOf(j);
    }
  }

  lemma {:induction false} InvRun(j: Joint, es: seq<Event>)
    requires Start(j) && GentleRun(j, es)
    ensures Inv(Run(j, es))
  {
    if es == [] {
      TodoRuns.ConvergedRun(DbOf(j), []);
    } else {
      InvRun(j, es[..|es| - 1]);
      match es[|es| - 1]
      case TodoEvent(op, now) => TodoStep(Run(j, es[..|es| - 1]), op, now);
      case SyncEvent(e) => SyncStep(Run(j, es[..|es| - 1]), e);
    }
  }

  /** However the client's pulls, other writers, other devices and compaction interleave with the todo operations, a client
      that has reached the newest change holds exactly the table's live todos. */
  lemma {:induction false} ClientConverges(j: Joint, es: seq<Event>)
    requires Start(j) && GentleRun(j, es)
    ensures var t := Run(j, es);
            t.sys.client.cursor >= MaxId(t.sys.history) ==> TodoRuns.Converged(t.sys.client.view, t.todos)
  {
    var t := Run(j, es);
    InvRun(j, es);
    if t.sys.client.cursor >= MaxId(t.sys.history) {
      SyncRuns.CaughtUp(t.sys);
    }
  }
}
