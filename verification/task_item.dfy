/** The edit command: the task row's save handler, which checks the edit,
    records an EDIT entry and calls the list's update. */
module TaskItem {
  import opened Domain
  import Text
  import TaskList

  /** The save handler's change test. The stored text is compared with the
      TRIMMED edit text, while the untrimmed text is what gets stored. */
  predicate HasChanges(task: Task, editText: string, editPriority: Priority) {
    task.text != Text.Trim(editText) || task.priority != editPriority
  }

  /** The EDIT record written when `task` is saved with new values. */
  function EditRecord(task: Task, editText: string, editPriority: Priority, timestamp: Timestamp): HistoryRecord {
    HistoryRecord(task.id, EDIT, Some(SnapshotOf(task)), Snapshot(editText, editPriority), timestamp)
  }

  /** Saving the edit of `task` (the task object the row displays). Blank
      text is rejected, an edit without a detected change does nothing, and
      a detected change appends one EDIT record and updates every task with
      that id to the untrimmed text and the new priority. */
  function Save(s: AppState, task: Task, editText: string, editPriority: Priority, timestamp: Timestamp): (r: AppState)
    ensures Text.IsBlank(editText) ==> r == s
    ensures s.history <= r.history && |r.history| <= |s.history| + 1
    ensures |r.history| == |s.history| + 1 <==>
      !Text.IsBlank(editText) && (task.text != Text.Trim(editText) || task.priority != editPriority)
    ensures |r.history| == |s.history| ==> r == s
    ensures |r.history| == |s.history| + 1 ==>
      && r.history[|s.history|].taskId == task.id
      && r.history[|s.history|].kind == EDIT
      && r.history[|s.history|].oldValue == Some(Snapshot(task.text, task.priority))
      && r.history[|s.history|].newValue == Snapshot(editText, editPriority)
      && r.history[|s.history|].timestamp == timestamp
      && r.tasks == TaskList.Update(s.tasks, task.id, editText, editPriority)
  {
    if Text.IsBlank(editText) then s
    else if !HasChanges(task, editText, editPriority) then s
    else
      AppState(
        TaskList.Update(s.tasks, task.id, editText, editPriority),
        s.history + [EditRecord(task, editText, editPriority, timestamp)])
  }

  /** An edit whose trimmed text equals the stored text and whose priority
      is unchanged is not a change, even if the untrimmed edit differs. */
  lemma TrimmedEqualIsNoChange(s: AppState, task: Task, editText: string, timestamp: Timestamp)
    requires Text.Trim(editText) == task.text
    ensures Save(s, task, editText, task.priority, timestamp) == s
  {
  }

  /** Stored "milk", edit "milk " with the same priority: no update, no
      record. */
  lemma TrailingSpaceEditIgnored(s: AppState, id: TaskId, done: bool, p: Priority, timestamp: Timestamp)
    ensures Save(s, Task(id, "milk", done, p), "milk ", p, timestamp) == s
  {
    assert Text.LeadingWhitespace("milk ") == 0;
    assert Text.TrailingWhitespace("milk ") == 1;
    assert Text.Trim("milk ") == "milk";
  }

  /** When the stored text itself has surrounding whitespace, saving it
      unchanged still counts as a change and records an EDIT whose old and
      new values are equal. */
  lemma UnchangedSaveOfPaddedText(s: AppState, task: Task, timestamp: Timestamp)
    requires !Text.IsBlank(task.text) && Text.Trim(task.text) != task.text
    ensures Save(s, task, task.text, task.priority, timestamp).history
         == s.history + [HistoryRecord(task.id, EDIT, Some(SnapshotOf(task)), SnapshotOf(task), timestamp)]
  {
  }

  /** Stored "milk " saved unchanged as "milk ": one EDIT record from
      "milk " to "milk ". */
  lemma PaddedMilkRecordsEdit(s: AppState, id: TaskId, done: bool, p: Priority, timestamp: Timestamp)
    ensures
      var r := Save(s, Task(id, "milk ", done, p), "milk ", p, timestamp);
      && r.history == s.history + [HistoryRecord(id, EDIT, Some(Snapshot("milk ", p)), Snapshot("milk ", p), timestamp)]
      && r.tasks == TaskList.Update(s.tasks, id, "milk ", p)
  {
    assert Text.LeadingWhitespace("milk ") == 0;
    assert Text.TrailingWhitespace("milk ") == 1;
    assert Text.Trim("milk ") == "milk";
  }

  /** With distinct ids and `task` taken from the collection, a saved change
      rewrites exactly that task: its text and priority become the edited
      ones, its id and completion stay, every other task is unchanged, and
      the record's old value is what was stored. */
  lemma SaveEditsOnlyTarget(s: AppState, task: Task, editText: string, editPriority: Priority, timestamp: Timestamp, i: int)
    requires UniqueIds(s.tasks) && 0 <= i < |s.tasks| && s.tasks[i] == task
    requires !Text.IsBlank(editText) && HasChanges(task, editText, editPriority)
    ensures
      var r := Save(s, task, editText, editPriority, timestamp);
      && |r.tasks| == |s.tasks|
      && r.tasks[i] == Task(task.id, editText, task.completed, editPriority)
      && (forall j :: 0 <= j < |s.tasks| && j != i ==> r.tasks[j] == s.tasks[j])
      && r.history[|s.history|].oldValue == Some(SnapshotOf(s.tasks[i]))
  {
    var r := Save(s, task, editText, editPriority, timestamp);
    forall j | 0 <= j < |s.tasks| && j != i ensures r.tasks[j] == s.tasks[j] {
      assert s.tasks[j].id != task.id;
    }
  }

  /** Saving never makes two tasks share an id. */
  lemma SaveKeepsUniqueIds(s: AppState, task: Task, editText: string, editPriority: Priority, timestamp: Timestamp)
    requires UniqueIds(s.tasks)
    ensures UniqueIds(Save(s, task, editText, editPriority, timestamp).tasks)
  {
    TaskList.MapsKeepUniqueIds(s.tasks, task.id, editText, editPriority);
  }
}
