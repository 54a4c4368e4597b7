/** Sequences of pushes: every client operation takes effect at most once and is answered alike ever after. */
module PushRuns {
  import opened Domain
  import opened Push
  import Memos

  /** A runner labels its results with the item's own operation id. */
  ghost predicate Echoes<S(!new)>(run: Runner<S>) {
    forall s, a :: run(s, a).1.Ok? ==> run(s, a).1.value.clientOpId == a.item.clientOpId
  }

  predicate SameOp(a: Event, b: Event) {
    a.device == b.device && a.item.clientOpId == b.item.clientOpId
  }

  /** Once an operation has succeeded it is never run again, and its result is repeated verbatim. */
  predicate AtMostOnce(trace: seq<Event>) {
    forall i, j :: 0 <= i < j < |trace| && SameOp(trace[i], trace[j]) && trace[i].item.clientOpId != "" && trace[i].result.ok
                   ==> !trace[j].ran && trace[j].result == trace[i].result
  }

  predicate Remembers(operations: map<(string, string), PushResult>, e: Event) {
    (e.device, e.item.clientOpId) in operations && operations[(e.device, e.item.clientOpId)] == e.result
  }

  /** Every answer is labelled with the item's id, the successful ones are in the table, and so are all repeated ones. */
  predicate EventOk(operations: map<(string, string), PushResult>, e: Event) {
    && e.result.clientOpId == e.item.clientOpId
    && (e.item.clientOpId != "" && e.result.ok ==> Remembers(operations, e))
    && (!e.ran ==> e.item.clientOpId != "" && e.result.ok)
  }

  ghost predicate Recorded<S>(s: Session<S>) {
    && AtMostOnce(s.trace)
    && (forall i :: 0 <= i < |s.trace| ==> EventOk(s.operations, s.trace[i]))
    && (forall k :: k in s.operations ==> s.operations[k].ok && s.operations[k].clientOpId == k.1 != "")
  }

  /** A server that has handled nothing yet. */
  ghost predicate Clean<S>(s: Session<S>) {
    s.trace == [] && s.operations == map[]
  }

  lemma AddEvent(trace: seq<Event>, operations: map<(string, string), PushResult>, e: Event)
    requires AtMostOnce(trace) && forall i :: 0 <= i < |trace| ==> EventOk(operations, trace[i])
    requires (e.device, e.item.clientOpId) in operations && e.item.clientOpId != "" ==> !e.ran && Remembers(operations, e)
    ensures AtMostOnce(trace + [e])
  {
    var t := trace + [e];
    forall i, j | 0 <= i < j < |t| && SameOp(t[i], t[j]) && t[i].item.clientOpId != "" && t[i].result.ok
      ensures !t[j].ran && t[j].result == t[i].result
    {
      if j == |trace| {
        assert EventOk(operations, trace[i]);
      }
    }
  }

  lemma MoreOperations(operations: map<(string, string), PushResult>, key: (string, string), result: PushResult, e: Event)
    requires key !in operations && EventOk(operations, e)
    ensures EventOk(operations[key := result], e)
  {
  }

  lemma HandleRecords<S(!new)>(run: Runner<S>, s: Session<S>, device: string, a: Arrival)
    requires Echoes(run) && Recorded(s)
    ensures var (t, r) := Handle(run, s, device, a);
            && Recorded(t)
            && (forall k :: k in s.operations ==> k in t.operations && t.operations[k] == s.operations[k])
            && (r.Ok? ==> r.value.clientOpId == a.item.clientOpId)
            && (r.Ok? && r.value.ok && a.item.clientOpId != "" ==>
                  (device, a.item.clientOpId) in t.operations && t.operations[(device, a.item.clientOpId)] == r.value)
  {
    var (t, r) := Handle(run, s, device, a);
    var key := (device, a.item.clientOpId);
    if r.Ok? {
      var e := t.trace[|s.trace|];
      assert t.trace == s.trace + [e];
      AddEvent(s.trace, s.operations, e);
      forall i | 0 <= i < |s.trace| ensures EventOk(t.operations, s.trace[i]) {
        if t.operations != s.operations {
          MoreOperations(s.operations, key, r.value, s.trace[i]);
        }
      }
    }
  }

  /** A remembered operation is answered from the table and touches nothing. */
  lemma HandleRepeats<S>(run: Runner<S>, s: Session<S>, device: string, a: Arrival)
    requires a.item.clientOpId != "" && (device, a.item.clientOpId) in s.operations
    ensures var (t, r) := Handle(run, s, device, a);
            r == Ok(s.operations[(device, a.item.clientOpId)]) && t.store == s.store && t.operations == s.operations
  {
  }

  lemma {:induction false} HandleAllRecords<S(!new)>(run: Runner<S>, s: Session<S>, device: string, items: seq<Arrival>)
    requires Echoes(run) && Recorded(s)
    ensures var (t, r) := HandleAll(run, s, device, items);
            && Recorded(t)
            && (forall k :: k in s.operations ==> k in t.operations && t.operations[k] == s.operations[k])
            && (r.Ok? ==> |r.value| == |items|)
            && (r.Ok? ==> forall i :: 0 <= i < |items| && r.value[i].ok && items[i].item.clientOpId != "" ==>
                  (device, items[i].item.clientOpId) in t.operations
                  && t.operations[(device, items[i].item.clientOpId)] == r.value[i])
  {
    if items == [] {
    } else {
      HandleAllRecords(run, s, device, items[..|items| - 1]);
      HandleRecords(run, HandleAll(run, s, device, items[..|items| - 1]).0, device, items[|items| - 1]);
    }
  }

  lemma {:induction false} PushAllRecords<S(!new)>(run: Runner<S>, limit: nat, s: Session<S>, reqs: seq<Request>)
    requires Echoes(run) && Recorded(s)
    ensures Recorded(PushAll(run, limit, s, reqs))
  {
    if reqs == [] {
    } else {
      PushAllRecords(run, limit, s, reqs[..|reqs| - 1]);
      var last := reqs[|reqs| - 1];
      HandleAllRecords(run, PushAll(run, limit, s, reqs[..|reqs| - 1]), DeviceOf(last), last.items);
    }
  }

  /** Over any batches — repeated inside a batch, resent, or cut short by an error — each operation of a device succeeds
      at most once, and from then on its first result is repeated verbatim. */
  lemma PushAtMostOnce<S(!new)>(run: Runner<S>, limit: nat, s: Session<S>, reqs: seq<Request>)
    requires Echoes(run) && Clean(s)
    ensures AtMostOnce(PushAll(run, limit, s, reqs).trace)
  {
    PushAllRecords(run, limit, s, reqs);
  }

  /** Answering a batch of remembered operations. */
  lemma {:induction false} RepeatAll<S>(run: Runner<S>, s: Session<S>, device: string, items: seq<Arrival>, results: seq<PushResult>)
    requires |results| == |items|
    requires forall i :: 0 <= i < |items| ==>
               var key := (device, items[i].item.clientOpId);
               key.1 != "" && key in s.operations && s.operations[key] == results[i]
    ensures var (t, r) := HandleAll(run, s, device, items);
            r == Ok(results) && t.store == s.store && t.operations == s.operations
  {
    if items == [] {
    } else {
      var n := |items| - 1;
      RepeatAll(run, s, device, items[..n], results[..n]);
      HandleRepeats(run, HandleAll(run, s, device, items[..n]).0, device, items[n]);
      assert results == results[..n] + [results[n]];
    }
  }

  /** A batch whose items all succeeded can be resent at any later time, after any other pushes: the answer is the same
      and the tables are not touched. */
  lemma ResentBatch<S(!new)>(run: Runner<S>, limit: nat, s: Session<S>, req: Request, others: seq<Request>)
    requires Echoes(run) && Recorded(s)
    requires forall i :: 0 <= i < |req.items| ==> req.items[i].item.clientOpId != ""
    requires var r := PushBatch(run, limit, s, req).1; r.Ok? && forall i :: 0 <= i < |r.value| ==> r.value[i].ok
    ensures var (s1, r) := PushBatch(run, limit, s, req);
            var t := PushAll(run, limit, s1, others);
            var (after, r') := PushBatch(run, limit, t, req);
            r' == r && after.store == t.store && after.operations == t.operations
  {
    var (s1, r) := PushBatch(run, limit, s, req);
    HandleAllRecords(run, s, DeviceOf(req), req.items);
    OperationsStay(run, limit, s1, others);
    RepeatAll(run, PushAll(run, limit, s1, others), DeviceOf(req), req.items, r.value);
  }

  lemma {:induction false} OperationsStay<S(!new)>(run: Runner<S>, limit: nat, s: Session<S>, reqs: seq<Request>)
    requires Echoes(run) && Recorded(s)
    ensures var t := PushAll(run, limit, s, reqs);
            Recorded(t) && forall k :: k in s.operations ==> k in t.operations && t.operations[k] == s.operations[k]
  {
    if reqs == [] {
    } else {
      OperationsStay(run, limit, s, reqs[..|reqs| - 1]);
      var last := reqs[|reqs| - 1];
      HandleAllRecords(run, PushAll(run, limit, s, reqs[..|reqs| - 1]), DeviceOf(last), last.items);
    }
  }

  // ----- the table of results -----

  /** The operation has succeeded before. */
  ghost predicate WasDone(trace: seq<Event>, device: string, id: string) {
    exists i :: 0 <= i < |trace| && trace[i].device == device && trace[i].item.clientOpId == id && trace[i].result.ok
  }

  /** What is in the table got there by succeeding. */
  ghost predicate Sourced<S>(s: Session<S>) {
    forall device, id :: (device, id) in s.operations ==> WasDone(s.trace, device, id)
  }

  lemma WasDoneStays(trace: seq<Event>, e: Event, device: string, id: string)
    ensures WasDone(trace + [e], device, id) <==>
            WasDone(trace, device, id) || (e.device == device && e.item.clientOpId == id && e.result.ok)
  {
    var t := trace + [e];
    if i :| 0 <= i < |trace| && trace[i].device == device && trace[i].item.clientOpId == id && trace[i].result.ok {
      assert t[i] == trace[i];
    }
    assert t[|trace|] == e;
  }

  lemma HandleSources<S(!new)>(run: Runner<S>, s: Session<S>, device: string, a: Arrival)
    requires Echoes(run) && Sourced(s)
    ensures Sourced(Handle(run, s, device, a).0)
  {
    var (t, r) := Handle(run, s, device, a);
    if r.Ok? {
      var e := t.trace[|s.trace|];
      assert t.trace == s.trace + [e];
      forall d, id | (d, id) in t.operations ensures WasDone(t.trace, d, id) {
        WasDoneStays(s.trace, e, d, id);
      }
    }
  }

  lemma {:induction false} HandleAllSources<S(!new)>(run: Runner<S>, s: Session<S>, device: string, items: seq<Arrival>)
    requires Echoes(run) && Sourced(s)
    ensures Sourced(HandleAll(run, s, device, items).0)
  {
    if items == [] {
    } else {
      HandleAllSources(run, s, device, items[..|items| - 1]);
      HandleSources(run, HandleAll(run, s, device, items[..|items| - 1]).0, device, items[|items| - 1]);
    }
  }

  lemma {:induction false} PushAllSources<S(!new)>(run: Runner<S>, limit: nat, s: Session<S>, reqs: seq<Request>)
    requires Echoes(run) && Sourced(s)
    ensures Sourced(PushAll(run, limit, s, reqs))
  {
    if reqs == [] {
    } else {
      var last := reqs[|reqs| - 1];
      PushAllSources(run, limit, s, reqs[..|reqs| - 1]);
      HandleAllSources(run, PushAll(run, limit, s, reqs[..|reqs| - 1]), DeviceOf(last), last.items);
    }
  }

  /** After any pushes, what is loaded for an operation is the result it succeeded with, and nothing is loaded for one that
      has not succeeded or has no id. */
  lemma LoadedIffSucceeded<S(!new)>(run: Runner<S>, limit: nat, s: Session<S>, reqs: seq<Request>, device: string, id: string,
                                    result: PushResult)
    requires Echoes(run) && Clean(s)
    ensures var t := PushAll(run, limit, s, reqs);
            (device, id) in t.operations && t.operations[(device, id)] == result <==>
            id != "" && exists i :: 0 <= i < |t.trace| && t.trace[i].device == device && t.trace[i].item.clientOpId == id
                                    && t.trace[i].result == result && result.ok
  {
    var t := PushAll(run, limit, s, reqs);
    PushAllRecords(run, limit, s, reqs);
    PushAllSources(run, limit, s, reqs);
    if (device, id) in t.operations {
      var i :| 0 <= i < |t.trace| && t.trace[i].device == device && t.trace[i].item.clientOpId == id && t.trace[i].result.ok;
      assert EventOk(t.operations, t.trace[i]);
    }
    if i :| 0 <= i < |t.trace| && t.trace[i].device == device && t.trace[i].item.clientOpId == id
            && t.trace[i].result == result && result.ok
    {
      assert EventOk(t.operations, t.trace[i]);
    }
  }

  // ----- erasing repetitions -----

  /** The events that ran. */
  function Ran(trace: seq<Event>): seq<Event> {
    if trace == [] then []
    else Ran(trace[..|trace| - 1]) + (if trace[|trace| - 1].ran then [trace[|trace| - 1]] else [])
  }

  lemma RanSnoc(trace: seq<Event>, e: Event)
    ensures Ran(trace + [e]) == Ran(trace) + (if e.ran then [e] else [])
  {
    assert (trace + [e])[..|trace|] == trace;
  }

  /** The items of a batch but for those whose operation has succeeded by the time they are reached. */
  ghost function Remaining<S>(run: Runner<S>, s: Session<S>, device: string, items: seq<Arrival>): (r: seq<Arrival>)
    ensures |r| <= |items|
  {
    if items == [] then []
    else
      var n := |items| - 1;
      var (s1, done) := HandleAll(run, s, device, items[..n]);
      var id := items[n].item.clientOpId;
      Remaining(run, s, device, items[..n]) + (if done.Ok? && id != "" && WasDone(s1.trace, device, id) then [] else [items[n]])
  }

  ghost function Erased<S>(run: Runner<S>, limit: nat, s: Session<S>, reqs: seq<Request>): seq<Request> {
    if reqs == [] then []
    else
      var n := |reqs| - 1;
      var last := reqs[n];
      Erased(run, limit, s, reqs[..n])
      + [if |last.items| > limit then last
         else last.(items := Remaining(run, PushAll(run, limit, s, reqs[..n]), DeviceOf(last), last.items))]
  }

  /** The same tables, and the same answers of everything that ran. */
  ghost predicate Similar<S>(s: Session<S>, t: Session<S>) {
    t.store == s.store && t.operations == s.operations && t.trace == Ran(s.trace)
  }

  lemma LookupSimilar<S>(run: Runner<S>, s: Session<S>, t: Session<S>, device: string, a: Arrival)
    requires Similar(s, t) && a.item.clientOpId != "" && (device, a.item.clientOpId) in s.operations
    ensures var (s', r) := Handle(run, s, device, a); r.Ok? && Similar(s', t)
  {
    RanSnoc(s.trace, Event(device, a.item, s.operations[(device, a.item.clientOpId)], false));
  }

  lemma RunSimilar<S>(run: Runner<S>, s: Session<S>, t: Session<S>, device: string, a: Arrival)
    requires Similar(s, t) && (a.item.clientOpId == "" || (device, a.item.clientOpId) !in s.operations)
    ensures var (s', r), (t', r') := Handle(run, s, device, a), Handle(run, t, device, a); r' == r && Similar(s', t')
  {
    var r := run(s.store, a).1;
    if r.Ok? {
      RanSnoc(s.trace, Event(device, a.item, r.value, true));
    }
  }

  lemma HandleSimilar<S>(run: Runner<S>, s: Session<S>, t: Session<S>, device: string, a: Arrival)
    requires Similar(s, t)
    ensures var id := a.item.clientOpId;
            var (s', r), (t', r') := Handle(run, s, device, a), Handle(run, t, device, a);
            if id != "" && (device, id) in s.operations then r.Ok? && Similar(s', t) else r' == r && Similar(s', t')
  {
    if a.item.clientOpId != "" && (device, a.item.clientOpId) in s.operations {
      LookupSimilar(run, s, t, device, a);
    } else {
      RunSimilar(run, s, t, device, a);
    }
  }

  lemma HandleAllLast<S>(run: Runner<S>, s: Session<S>, device: string, items: seq<Arrival>, a: Arrival)
    ensures var (s1, done) := HandleAll(run, s, device, items);
            HandleAll(run, s, device, items + [a]) ==
            if done.Err? then (s1, done)
            else
              var (s2, r) := Handle(run, s1, device, a);
              match r
              case Err(code) => (s2, Err(code))
              case Ok(result) => (s2, Ok(done.value + [result]))
  {
    assert (items + [a])[..|items|] == items;
  }

  ghost predicate SameEnd<S>(a: (Session<S>, Result<seq<PushResult>>), b: (Session<S>, Result<seq<PushResult>>)) {
    Similar(a.0, b.0) && (a.1.Ok? <==> b.1.Ok?) && (a.1.Err? ==> a.1.code == b.1.code)
  }

  lemma {:induction false} RemainingSuffices<S(!new)>(run: Runner<S>, s: Session<S>, t: Session<S>, device: string, items: seq<Arrival>)
    requires Echoes(run) && Recorded(s) && Sourced(s) && Similar(s, t)
    ensures SameEnd(HandleAll(run, s, device, items), HandleAll(run, t, device, Remaining(run, s, device, items)))
  {
    if items == [] {
    } else {
      var init, a := items[..|items| - 1], items[|items| - 1];
      var rest := Remaining(run, s, device, init);
      var s1, t1 := HandleAll(run, s, device, init).0, HandleAll(run, t, device, rest).0;
      RemainingSuffices(run, s, t, device, init);
      HandleAllRecords(run, s, device, init);
      HandleAllSources(run, s, device, init);
      if a.item.clientOpId != "" {
        DoneIffStored(s1, device, a.item.clientOpId);
      }
      HandleSimilar(run, s1, t1, device, a);
      HandleAllLast(run, t, device, rest, a);
      assert rest + [] == rest;
    }
  }

  lemma DoneIffStored<S>(s: Session<S>, device: string, id: string)
    requires Recorded(s) && Sourced(s) && id != ""
    ensures (device, id) in s.operations <==> WasDone(s.trace, device, id)
  {
    if i :| 0 <= i < |s.trace| && s.trace[i].device == device && s.trace[i].item.clientOpId == id && s.trace[i].result.ok {
      assert EventOk(s.operations, s.trace[i]);
    }
  }

  lemma {:induction false} ErasedSuffices<S(!new)>(run: Runner<S>, limit: nat, s: Session<S>, reqs: seq<Request>)
    requires Echoes(run) && Clean(s)
    ensures Similar(PushAll(run, limit, s, reqs), PushAll(run, limit, s, Erased(run, limit, s, reqs)))
  {
    if reqs == [] {
    } else {
      var init, last := reqs[..|reqs| - 1], reqs[|reqs| - 1];
      var before, erased := PushAll(run, limit, s, init), Erased(run, limit, s, init);
      ErasedSuffices(run, limit, s, init);
      PushAllRecords(run, limit, s, init);
      PushAllSources(run, limit, s, init);
      var last' := Erased(run, limit, s, reqs)[|erased|];
      assert Erased(run, limit, s, reqs) == erased + [last'];
      assert (erased + [last'])[..|erased|] == erased;
      if |last.items| <= limit {
        RemainingSuffices(run, before, PushAll(run, limit, s, erased), DeviceOf(last), last.items);
      }
    }
  }

  // ----- the server's own operations -----

  lemma TodoEchoes(db: ServerDb, a: Arrival)
    ensures var r := RunTodo(db, a).1; r.Ok? ==> r.value.clientOpId == a.item.clientOpId
  {
  }

  lemma MemoEchoes(env: Memos.Env, user: string, db: ServerDb, a: Arrival)
    ensures var r := RunMemoCreate(env, db, a).1; r.Ok? ==> r.value.clientOpId == a.item.clientOpId
    ensures var r := RunMemoUpdate(env, user, db, a).1; r.Ok? ==> r.value.clientOpId == a.item.clientOpId
    ensures var r := RunMemoDelete(db, a).1; r.Ok? ==> r.value.clientOpId == a.item.clientOpId
  {
  }

  lemma ItemEchoes(env: Memos.Env, user: string, db: ServerDb, a: Arrival)
    ensures var r := RunItem(env, user, db, a).1; r.Ok? ==> r.value.clientOpId == a.item.clientOpId
  {
    TodoEchoes(db, a);
    MemoEchoes(env, user, db, a);
  }

  /** The push handler over the memo and todo repositories applies every client operation at most once: dropping every
      repetition of a succeeded operation from the batches leaves the same tables and the same answers to the rest. */
  lemma ServerPushAtMostOnce(env: Memos.Env, user: string, limit: nat, s: Session<ServerDb>, reqs: seq<Request>)
    requires Clean(s)
    ensures var run := (db: ServerDb, a: Arrival) => RunItem(env, user, db, a);
            && AtMostOnce(PushAll(run, limit, s, reqs).trace)
            && Similar(PushAll(run, limit, s, reqs), PushAll(run, limit, s, Erased(run, limit, s, reqs)))
  {
    var run := (db: ServerDb, a: Arrival) => RunItem(env, user, db, a);
    forall db, a ensures run(db, a).1.Ok? ==> run(db, a).1.value.clientOpId == a.item.clientOpId {
      ItemEchoes(env, user, db, a);
    }
    PushAtMostOnce(run, limit, s, reqs);
    ErasedSuffices(run, limit, s, reqs);
  }
}
