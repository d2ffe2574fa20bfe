/** The add command: the form's submit handler together with its history
    append. The clock readings for the id and the timestamp are parameters. */
module TaskForm {
  import opened Domain
  import Text
  import TaskHistory

  /** The ADD record written for a newly created task. */
  function AddRecord(taskId: TaskId, text: string, priority: Priority, timestamp: Timestamp): HistoryRecord {
    HistoryRecord(taskId, ADD, None, Snapshot(text, priority), timestamp)
  }

  /** Submitting the form with `newTask` and `newPriority`: blank text is
      rejected; otherwise a new incomplete task is appended to the tasks and
      one ADD record to the ledger. */
  function Submit(s: AppState, newTask: string, newPriority: Priority, taskId: TaskId, timestamp: Timestamp): (r: AppState)
    ensures Text.IsBlank(newTask) ==> r == s
    ensures s.tasks <= r.tasks && s.history <= r.history
    ensures !Text.IsBlank(newTask) ==>
      && |r.tasks| == |s.tasks| + 1
      && r.tasks[|s.tasks|] == Task(taskId, newTask, false, newPriority)
    ensures !Text.IsBlank(newTask) ==>
      && |r.history| == |s.history| + 1
      && r.history[|s.history|].kind == ADD
      && r.history[|s.history|].oldValue == None
      && r.history[|s.history|].newValue == Snapshot(newTask, newPriority)
      && r.history[|s.history|].taskId == r.tasks[|s.tasks|].id
      && r.history[|s.history|].timestamp == timestamp
  {
    if Text.IsBlank(newTask) then s
    else
      AppState(
        s.tasks + [Task(taskId, newTask, false, newPriority)],
        s.history + [AddRecord(taskId, newTask, newPriority, timestamp)])
  }

  /** An empty or whitespace-only submission changes nothing. */
  lemma BlankSubmissionsIgnored(s: AppState, p: Priority, taskId: TaskId, timestamp: Timestamp)
    ensures Submit(s, "", p, taskId, timestamp) == s
    ensures Submit(s, "   ", p, taskId, timestamp) == s
    ensures Submit(s, " \t\n", p, taskId, timestamp) == s
  {
    assert Text.LeadingWhitespace("   ") == 3;
    assert Text.LeadingWhitespace(" \t\n") == 3;
  }

  /** The untrimmed text is what is stored: surrounding whitespace is kept. */
  lemma StoresUntrimmedText(s: AppState, taskId: TaskId, timestamp: Timestamp)
    ensures Submit(s, " milk ", Low, taskId, timestamp).tasks == s.tasks + [Task(taskId, " milk ", false, Low)]
  {
    assert Text.LeadingWhitespace(" milk ") == 1;
  }

  /** A fresh id keeps the ids of the collection distinct. */
  lemma SubmitKeepsUniqueIds(s: AppState, newTask: string, newPriority: Priority, taskId: TaskId, timestamp: Timestamp)
    requires UniqueIds(s.tasks) && !HasTask(s.tasks, taskId)
    ensures UniqueIds(Submit(s, newTask, newPriority, taskId, timestamp).tasks)
  {
    var r := Submit(s, newTask, newPriority, taskId, timestamp);
    if !Text.IsBlank(newTask) {
      forall i | 0 <= i < |s.tasks| ensures s.tasks[i].id != taskId {
        assert s.tasks[i] in s.tasks;
      }
      assert forall i :: 0 <= i < |s.tasks| ==> r.tasks[i] == s.tasks[i];
    }
  }

  /** After a successful submission the new task's history starts with its
      ADD record, ahead of any older records under the same id. */
  lemma SubmitShowsInHistory(s: AppState, newTask: string, newPriority: Priority, taskId: TaskId, timestamp: Timestamp)
    requires !Text.IsBlank(newTask)
    ensures TaskHistory.Query(Submit(s, newTask, newPriority, taskId, timestamp).history, taskId)
         == [AddRecord(taskId, newTask, newPriority, timestamp)] + TaskHistory.Query(s.history, taskId)
  {
    TaskHistory.QueryAppend(s.history, AddRecord(taskId, newTask, newPriority, timestamp), taskId);
  }
}
