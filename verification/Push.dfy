/** `sync_routes.rs`: the push handler, which remembers the result of every successful client operation. */
module Push {
  import opened Domain
  import Text
  import opened Records
  import opened SyncLog
  import Memos
  import Todos

  type u64 = n: nat | n < U64

  datatype SavePush = SavePush(
    ifMatchEtag: Option<string>,
    baseRevision: Option<nat>,
    baseHash: Option<string>,
    leaseId: Option<string>,
    key: string,
    body: Option<Memos.SaveBody>,
    title: Option<string>,
    tags: seq<string>,
    isPinned: Option<bool>,
    isArchived: Option<bool>,
    notebookId: Option<string>)

  datatype TodoPush = TodoPush(todo: Option<Todo>, baseRevision: Option<u64>, ifMatchEtag: Option<string>)

  datatype PushItem = PushItem(
    clientOpId: string,
    op: string,
    memoId: Option<string>,
    save: Option<SavePush>,
    notebookId: Option<string>,
    title: Option<string>,
    markdown: Option<string>,
    todo: Option<TodoPush>)

  datatype PushResult = PushResult(
    clientOpId: string,
    ok: bool,
    error: Option<ErrorCode>,
    saveAck: Option<Memos.Ack>,
    memoId: Option<string>,
    todo: Option<Todo>)

  /** An item, with the clock reading and the new ids that handling it will use. */
  datatype Arrival = Arrival(item: PushItem, now: nat, newMemo: string, newSnapshot: string)

  // ----- one operation -----

  /** The tables a push works on; `inbox` is what `default_inbox_id` finds. */
  datatype ServerDb = ServerDb(memo: Memos.MemoDb, todos: map<string, Todo>, inbox: Option<string>)

  function TodoView(db: ServerDb): Todos.TodoDb {
    Todos.TodoDb(db.todos, db.memo.memos.Keys, db.memo.log)
  }

  function WithTodos(db: ServerDb, todos: Todos.TodoDb): ServerDb {
    db.(todos := todos.todos, memo := db.memo.(log := todos.log))
  }

  function Failed(item: PushItem, code: ErrorCode, memoId: Option<string>): PushResult {
    PushResult(item.clientOpId, false, Some(code), None, memoId, None)
  }

  function Done(item: PushItem, saveAck: Option<Memos.Ack>, memoId: Option<string>, todo: Option<Todo>): PushResult {
    PushResult(item.clientOpId, true, None, saveAck, memoId, todo)
  }

  function TodoResult(item: PushItem, r: Result<Todo>): PushResult {
    match r
    case Ok(todo) => Done(item, None, None, Some(todo))
    case Err(code) => Failed(item, code, None)
  }

  function RunMemoCreate(env: Memos.Env, db: ServerDb, a: Arrival): (ServerDb, Result<PushResult>) {
    var given := a.item.notebookId.GetOr("");
    if given == "" && db.inbox.None? then (db, Err(NotFound))
    else
      var notebook := if given == "" then db.inbox.value else given;
      var (memo, r) :=
        Memos.Create(env, db.memo, Memos.NewMemo(notebook, a.item.title, a.item.markdown.GetOr(""), []), a.newMemo, a.now);
      match r
      case Ok(_) => (db.(memo := memo), Ok(Done(a.item, None, Some(a.newMemo), None)))
      case Err(code) => (db.(memo := memo), Ok(Failed(a.item, code, None)))
  }

  function SaveOf(user: string, memoId: string, s: SavePush): Memos.SaveRequest {
    Memos.SaveRequest(user, memoId, s.ifMatchEtag, s.baseRevision, s.baseHash, s.leaseId, s.key, s.body, s.title,
                      if s.tags == [] then None else Some(s.tags), s.isPinned, s.isArchived, s.notebookId)
  }

  function RunMemoUpdate(env: Memos.Env, user: string, db: ServerDb, a: Arrival): (ServerDb, Result<PushResult>) {
    if a.item.memoId.None? then (db, Ok(Failed(a.item, InvalidArgument, None)))
    else if a.item.save.None? then (db, Ok(Failed(a.item, InvalidArgument, a.item.memoId)))
    else
      var req := SaveOf(user, a.item.memoId.value, a.item.save.value);
      var (memo, r) := Memos.Save(env, db.memo, req, a.newSnapshot, a.now);
      match r
      case Ok(ack) => (db.(memo := memo), Ok(Done(a.item, Some(ack), a.item.memoId, None)))
      case Err(code) => (db.(memo := memo), Ok(Failed(a.item, code, a.item.memoId)))
  }

  function RunMemoDelete(db: ServerDb, a: Arrival): (ServerDb, Result<PushResult>) {
    match a.item.memoId
    case None => (db, Ok(Failed(a.item, InvalidArgument, None)))
    case Some(id) => (db.(memo := Memos.Delete(db.memo, id, false, a.now)), Ok(Done(a.item, None, Some(id), None)))
  }

  function BaseOf(push: TodoPush): Option<int> {
    match push.baseRevision
    case None => None
    case Some(v) => Some(AsI64(v))
  }

  function RunTodo(db: ServerDb, a: Arrival): (ServerDb, Result<PushResult>) {
    if a.item.todo.None? || a.item.todo.value.todo.None? then (db, Err(InvalidArgument))
    else
      var push, todo := a.item.todo.value, a.item.todo.value.todo.value;
      match a.item.op
      case "todo.create" =>
        var (t, r) :=
          Todos.Create(TodoView(db), Todos.CreateRequest(Some(todo.id), todo.title, todo.note, Some(todo.status), todo.dueDate,
                                                         Some(todo.priority), todo.linkedMemoId), "", a.now);
        (WithTodos(db, t), Ok(TodoResult(a.item, r)))
      case "todo.restore" =>
        var (t, r) := Todos.Restore(TodoView(db), todo.id, BaseOf(push), push.ifMatchEtag, a.now);
        (WithTodos(db, t), Ok(TodoResult(a.item, r)))
      case "todo.delete" =>
        var (t, r) := Todos.Delete(TodoView(db), todo.id, BaseOf(push), push.ifMatchEtag, false, a.now);
        (WithTodos(db, t), Ok(if r.Ok? then Done(a.item, None, None, Some(todo)) else Failed(a.item, r.code, None)))
      case _ =>
        var (t, r) :=
          Todos.Update(TodoView(db), todo.id,
                       Todos.UpdateRequest(Some(todo.title), Some(todo.note), Some(todo.status), Some(todo.dueDate),
                                           Some(todo.priority), Some(todo.linkedMemoId), BaseOf(push), push.ifMatchEtag),
                       a.now);
        (WithTodos(db, t), Ok(TodoResult(a.item, r)))
  }

  /** What one item does; an error ends the whole push. */
  function RunItem(env: Memos.Env, user: string, db: ServerDb, a: Arrival): (ServerDb, Result<PushResult>) {
    match a.item.op
    case "memo.create" => RunMemoCreate(env, db, a)
    case "memo.update" => RunMemoUpdate(env, user, db, a)
    case "memo.delete" => RunMemoDelete(db, a)
    case op =>
      if op in ["todo.create", "todo.update", "todo.complete", "todo.restore", "todo.delete"] then RunTodo(db, a)
      else (db, Ok(Failed(a.item, InvalidArgument, None)))
  }

  // ----- the handler -----

  /** A way to run one item. */
  type Runner<!S> = (S, Arrival) -> (S, Result<PushResult>)

  /** One handled item: the device, what the client called it, the answer, and whether it was run or looked up. */
  datatype Event = Event(device: string, item: PushItem, result: PushResult, ran: bool)

  /** The tables, the `sync_operations` table, and a record of the handled items. */
  datatype Session<S> = Session(store: S, operations: map<(string, string), PushResult>, trace: seq<Event>)

  function Handle<S>(run: Runner<S>, s: Session<S>, device: string, a: Arrival): (Session<S>, Result<PushResult>) {
    var id := a.item.clientOpId;
    if id != "" && (device, id) in s.operations then
      var cached := s.operations[(device, id)];
      (s.(trace := s.trace + [Event(device, a.item, cached, false)]), Ok(cached))
    else
      var (store, r) := run(s.store, a);
      match r
      case Err(code) => (s.(store := store), Err(code))
      case Ok(result) =>
        var key := (device, result.clientOpId);
        var operations :=
          if result.ok && result.clientOpId != "" && key !in s.operations then s.operations[key := result] else s.operations;
        (Session(store, operations, s.trace + [Event(device, a.item, result, true)]), Ok(result))
  }

  function HandleAll<S>(run: Runner<S>, s: Session<S>, device: string, items: seq<Arrival>)
    : (Session<S>, Result<seq<PushResult>>)
  {
    if items == [] then (s, Ok([]))
    else
      var (s1, done) := HandleAll(run, s, device, items[..|items| - 1]);
      if done.Err? then (s1, done)
      else
        var (s2, r) := Handle(run, s1, device, items[|items| - 1]);
        match r
        case Err(code) => (s2, Err(code))
        case Ok(result) => (s2, Ok(done.value + [result]))
  }

  datatype Request = Request(deviceId: string, sessionDevice: Option<string>, items: seq<Arrival>)

  function DeviceOf(req: Request): string {
    if Text.Trim(req.deviceId) == "" then req.sessionDevice.GetOr("legacy") else req.deviceId
  }

  function PushBatch<S>(run: Runner<S>, limit: nat, s: Session<S>, req: Request): (Session<S>, Result<seq<PushResult>>) {
    if |req.items| > limit then (s, Err(InvalidArgument)) else HandleAll(run, s, DeviceOf(req), req.items)
  }

  function PushAll<S>(run: Runner<S>, limit: nat, s: Session<S>, reqs: seq<Request>): Session<S> {
    if reqs == [] then s else PushBatch(run, limit, PushAll(run, limit, s, reqs[..|reqs| - 1]), reqs[|reqs| - 1]).0
  }

  /** The handler of one server process. */
  class PushServer<S(==)> {
    var store: S
    var operations: map<(string, string), PushResult>
    ghost var trace: seq<Event>
    const run: Runner<S>
    const limit: nat

    ghost function State(): Session<S>
      reads this
    {
      Session(store, operations, trace)
    }

    constructor (run: Runner<S>, limit: nat, store: S)
      ensures this.run == run && this.limit == limit && State() == Session(store, map[], [])
    {
      this.run, this.limit, this.store, operations, trace := run, limit, store, map[], [];
    }

    method LoadPushResult(device: string, id: string) returns (cached: Option<PushResult>)
      ensures cached.Some? <==> (device, id) in operations
      ensures cached.Some? ==> operations[(device, id)] == cached.value
    {
      cached := if (device, id) in operations then Some(operations[(device, id)]) else None;
    }

    /** `INSERT OR IGNORE`. */
    method StorePushResult(device: string, result: PushResult)
      modifies this`operations
      ensures var key := (device, result.clientOpId);
              operations == if key in old(operations) then old(operations) else old(operations)[key := result]
    {
      if (device, result.clientOpId) !in operations {
        operations := operations[(device, result.clientOpId) := result];
      }
    }

    method PushItems(req: Request) returns (r: Result<seq<PushResult>>)
      modifies this
      ensures (State(), r) == PushBatch(run, limit, old(State()), req)
    {
      if |req.items| > limit {
        return Err(InvalidArgument);
      }
      var device := DeviceOf(req);
      var results: seq<PushResult> := [];
      ghost var before := State();
      for i := 0 to |req.items|
        invariant (State(), Ok(results)) == HandleAll(run, before, device, req.items[..i])
      {
        ghost var was := State();
        HandledSoFar(run, before, device, req.items, i);
        var a := req.items[i];
        if a.item.clientOpId != "" {
          var cached := LoadPushResult(device, a.item.clientOpId);
          if cached.Some? {
            trace := trace + [Event(device, a.item, cached.value, false)];
            results := results + [cached.value];
            continue;
          }
        }
        var (store', ran) := run(store, a);
        store := store';
        if ran.Err? {
          HandledFails(run, before, device, req.items, i, ran.code);
          return Err(ran.code);
        }
        trace := trace + [Event(device, a.item, ran.value, true)];
        if ran.value.ok && ran.value.clientOpId != "" {
          StorePushResult(device, ran.value);
        }
        results := results + [ran.value];
      }
      assert req.items[..|req.items|] == req.items;
      r := Ok(results);
    }
  }

  lemma HandledSoFar<S>(run: Runner<S>, s: Session<S>, device: string, items: seq<Arrival>, i: nat)
    requires i < |items|
    ensures items[..i + 1][..i] == items[..i] && items[..i + 1][i] == items[i] && items[..i + 1] != []
  {
  }

  /** An item that fails ends the push with its error. */
  lemma {:induction false} HandledFails<S>(run: Runner<S>, s: Session<S>, device: string, items: seq<Arrival>, i: nat, code: ErrorCode)
    requires i < |items|
    requires var (s1, done) := HandleAll(run, s, device, items[..i]);
             done.Ok? && Handle(run, s1, device, items[i]).1 == Err(code)
    ensures var s1 := HandleAll(run, s, device, items[..i]).0;
            HandleAll(run, s, device, items) == (Handle(run, s1, device, items[i]).0, Err(code))
    decreases |items|
  {
    var n := |items| - 1;
    if i == n {
      assert items[..i] == items[..n];
    } else {
      assert items[..n][..i] == items[..i];
      HandledFails(run, s, device, items[..n], i, code);
    }
  }
}
