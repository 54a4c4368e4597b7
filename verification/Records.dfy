/** The rows that the repositories write to the change log. */
module Records {
  import opened Domain

  /** A row of the `todos` table. Times are seconds. */
  datatype Todo = Todo(
    id: string,
    title: string,
    note: string,
    status: string,
    dueDate: Option<string>,
    priority: int,
    linkedMemoId: Option<string>,
    isDeleted: bool,
    revision: nat,
    etag: string,
    createdAt: nat,
    updatedAt: nat,
    completedAt: Option<nat>,
    deletedAt: Option<nat>)

  /** What `payload_json` carries. */
  datatype Payload =
    | NoPayload
    | TodoRow(todo: Todo)
    | MemoEtag(memoId: string, memoEtag: string)
    | MemoDeleted(deletedId: string, isDeleted: bool)
    | MemoMoved(movedId: string, notebookId: string)
    | NotebookMeta(notebookId: string, name: Option<string>, parentId: Option<string>)
    | NotebookOrder(notebookId: string, parentId: Option<string>, sortOrder: int)

  /** A row of the `sync_changes` table. */
  datatype Change = Change(
    id: nat,
    entityType: string,
    entityId: string,
    operation: string,
    payloadKind: string,
    payload: Payload,
    foldKey: string,
    createdAt: nat)
}
