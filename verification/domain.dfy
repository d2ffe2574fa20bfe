/** The records the application keeps: tasks, the change records of the
    history ledger, and the pair of persisted collections. */
module Domain {

  datatype Option<T> = None | Some(value: T)

  /** The three values the priority `<select>` offers. */
  datatype Priority = Low | Medium | High

  /** A task id is the millisecond clock reading `Date.now()` taken when the
      task was created; the clock itself is not modelled. */
  type TaskId = int

  /** An ISO-8601 instant as produced by `Date.prototype.toISOString`, kept
      as opaque text. */
  type Timestamp = string

  datatype Task = Task(id: TaskId, text: string, completed: bool, priority: Priority)

  /** The `{text, priority}` pair a history record stores. */
  datatype Snapshot = Snapshot(text: string, priority: Priority)

  /** The `type` field of a history record: creation or edit. Toggling and
      deleting leave no record. */
  datatype ChangeType = ADD | EDIT

  /** One entry of the `taskHistory` ledger. `oldValue` is absent for ADD. */
  datatype HistoryRecord = HistoryRecord(
    taskId: TaskId,
    kind: ChangeType,
    oldValue: Option<Snapshot>,
    newValue: Snapshot,
    timestamp: Timestamp)

  /** The two collections the application persists under the keys `tasks`
      and `taskHistory`. */
  datatype AppState = AppState(tasks: seq<Task>, history: seq<HistoryRecord>)

  function SnapshotOf(t: Task): Snapshot {
    Snapshot(t.text, t.priority)
  }

  predicate HasTask(tasks: seq<Task>, id: TaskId) {
    exists t :: t in tasks && t.id == id
  }

  /** No two positions of the collection hold the same id. */
  predicate UniqueIds(tasks: seq<Task>) {
    forall i, j :: 0 <= i < j < |tasks| ==> tasks[i].id != tasks[j].id
  }
}
