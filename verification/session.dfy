/** A session as a sequence of user commands, each applied to both
    collections as one step, and the invariants that hold across it. */
module Session {
  import opened Domain
  import Text
  import TaskList
  import TaskForm
  import TaskItem
  import TaskHistory
  import Seqs

  /** The four commands the rows and the form issue. Clock readings (the new
      id and the timestamps) travel with the command. */
  datatype Command =
    | SubmitTask(text: string, priority: Priority, newId: TaskId, timestamp: Timestamp)
    | SaveEdit(task: Task, editText: string, editPriority: Priority, timestamp: Timestamp)
    | ToggleTask(id: TaskId)
    | DeleteTask(id: TaskId)

  function Step(s: AppState, c: Command): (r: AppState)
    ensures s.history <= r.history && |r.history| <= |s.history| + 1
    ensures (c.ToggleTask? || c.DeleteTask?) ==> r.history == s.history
    ensures c.ToggleTask? ==> |r.tasks| == |s.tasks|
    ensures c.DeleteTask? ==> |r.tasks| <= |s.tasks| && forall t :: t in r.tasks ==> t.id != c.id
  {
    match c
    case SubmitTask(text, priority, newId, timestamp) => TaskForm.Submit(s, text, priority, newId, timestamp)
    case SaveEdit(task, editText, editPriority, timestamp) => TaskItem.Save(s, task, editText, editPriority, timestamp)
    case ToggleTask(id) => AppState(TaskList.Toggle(s.tasks, id), s.history)
    case DeleteTask(id) =>
      var tasks := TaskList.Delete(s.tasks, id);
      assert forall t :: t in tasks ==> t.id != id by {
        forall t | t in tasks ensures t.id != id {
          var i :| 0 <= i < |tasks| && tasks[i] == t;
        }
      }
      AppState(tasks, s.history)
  }

  /** Applies the commands in order. The ledger only grows, by at most one
      record per command. */
  function Run(s: AppState, cmds: seq<Command>): (r: AppState)
    ensures s.history <= r.history
    ensures |r.history| <= |s.history| + |cmds|
    decreases |cmds|
  {
    if cmds == [] then s else Run(Step(s, cmds[0]), cmds[1..])
  }

  /** Every record of a task that was in the ledger is still shown in that
      task's history after any further commands, deletion of the task
      included: the old history is what follows the records added since. */
  lemma HistorySurvives(s: AppState, cmds: seq<Command>, id: TaskId)
    ensures
      var h := Run(s, cmds).history;
      TaskHistory.Query(h, id) == TaskHistory.Query(h[|s.history|..], id) + TaskHistory.Query(s.history, id)
  {
    TaskHistory.QueryOfExtension(s.history, Run(s, cmds).history, id);
  }

  /** Every submitted id is new when it is submitted. */
  predicate FreshIds(s: AppState, cmds: seq<Command>)
    decreases |cmds|
  {
    cmds == []
    || ((cmds[0].SubmitTask? ==> !HasTask(s.tasks, cmds[0].newId)) && FreshIds(Step(s, cmds[0]), cmds[1..]))
  }

  lemma StepKeepsUniqueIds(s: AppState, c: Command)
    requires UniqueIds(s.tasks)
    requires c.SubmitTask? ==> !HasTask(s.tasks, c.newId)
    ensures UniqueIds(Step(s, c).tasks)
  {
    match c
    case SubmitTask(text, priority, newId, timestamp) =>
      TaskForm.SubmitKeepsUniqueIds(s, text, priority, newId, timestamp);
    case SaveEdit(task, editText, editPriority, timestamp) =>
      TaskItem.SaveKeepsUniqueIds(s, task, editText, editPriority, timestamp);
    case ToggleTask(id) =>
      TaskList.MapsKeepUniqueIds(s.tasks, id, "", Low);
    case DeleteTask(id) =>
      TaskList.DeleteKeepsUniqueIds(s.tasks, id);
  }

  /** Ids stay distinct over a session as long as every new id is fresh. */
  lemma {:induction false} RunKeepsUniqueIds(s: AppState, cmds: seq<Command>)
    requires UniqueIds(s.tasks) && FreshIds(s, cmds)
    ensures UniqueIds(Run(s, cmds).tasks)
    decreases |cmds|
  {
    if cmds != [] {
      StepKeepsUniqueIds(s, cmds[0]);
      RunKeepsUniqueIds(Step(s, cmds[0]), cmds[1..]);
    }
  }

  /** Every task and every record refers to an id in `known`. */
  predicate RefersTo(s: AppState, known: set<TaskId>) {
    && (forall t :: t in s.tasks ==> t.id in known)
    && (forall rec :: rec in s.history ==> rec.taskId in known)
  }

  /** The id a command may introduce. */
  function Introduced(c: Command): set<TaskId> {
    if c.SubmitTask? then {c.newId} else {}
  }

  /** A record always names a task that exists or once existed: a step only
      introduces the id it submits, provided an edit is issued for a task of
      the collection. */
  lemma StepRefersToKnown(s: AppState, c: Command, known: set<TaskId>)
    requires RefersTo(s, known)
    requires c.SaveEdit? ==> c.task in s.tasks
    ensures RefersTo(Step(s, c), known + Introduced(c))
  {
    var r := Step(s, c);
    forall rec | rec in r.history ensures rec.taskId in known + Introduced(c) {
      var k :| 0 <= k < |r.history| && r.history[k] == rec;
      if k < |s.history| {
        assert s.history[k] == rec;
      }
    }
    match c
    case SubmitTask(text, priority, newId, timestamp) =>
      forall t | t in r.tasks ensures t.id in known + {newId} {
        var k :| 0 <= k < |r.tasks| && r.tasks[k] == t;
        if k < |s.tasks| {
          assert s.tasks[k] == t;
        }
      }
    case SaveEdit(task, editText, editPriority, timestamp) =>
      forall t | t in r.tasks ensures t.id in known {
        var k :| 0 <= k < |r.tasks| && r.tasks[k] == t;
        if |r.tasks| == |s.tasks| {
          assert r.tasks[k].id == s.tasks[k].id && s.tasks[k] in s.tasks;
        }
      }
    case ToggleTask(id) =>
      forall t | t in r.tasks ensures t.id in known {
        var k :| 0 <= k < |r.tasks| && r.tasks[k] == t;
        assert s.tasks[k] in s.tasks;
      }
    case DeleteTask(id) =>
      Seqs.SubsequenceMembers(r.tasks, s.tasks);
  }

  /** Add a task, edit it with a detected change, delete it: the collection
      ends as it started, the ledger gains the ADD and the EDIT record, and
      the task's history still shows both, newest first. */
  lemma AddEditDelete(
    start: seq<Task>, text: string, priority: Priority, editText: string, editPriority: Priority,
    id: TaskId, ts1: Timestamp, ts2: Timestamp)
    requires !HasTask(start, id)
    requires !Text.IsBlank(text) && !Text.IsBlank(editText)
    requires text != Text.Trim(editText) || priority != editPriority
    ensures
      var task := Task(id, text, false, priority);
      var addRec := HistoryRecord(id, ADD, None, Snapshot(text, priority), ts1);
      var editRec := HistoryRecord(id, EDIT, Some(Snapshot(text, priority)), Snapshot(editText, editPriority), ts2);
      var r := Run(AppState(start, []), [SubmitTask(text, priority, id, ts1), SaveEdit(task, editText, editPriority, ts2), DeleteTask(id)]);
      && r.tasks == start
      && r.history == [addRec, editRec]
      && TaskHistory.Query(r.history, id) == [editRec, addRec]
  {
    var task := Task(id, text, false, priority);
    var addRec := HistoryRecord(id, ADD, None, Snapshot(text, priority), ts1);
    var editRec := HistoryRecord(id, EDIT, Some(Snapshot(text, priority)), Snapshot(editText, editPriority), ts2);
    var s0 := AppState(start, []);
    var s1 := Step(s0, SubmitTask(text, priority, id, ts1));
    var s2 := Step(s1, SaveEdit(task, editText, editPriority, ts2));
    var s3 := Step(s2, DeleteTask(id));
    RunOfThree(s0, SubmitTask(text, priority, id, ts1), SaveEdit(task, editText, editPriority, ts2), DeleteTask(id));
    assert s1 == AppState(start + [task], [addRec]);
    var edited := Task(id, editText, false, editPriority);
    EditAppended(start, task, editText, editPriority, s1.history, ts2);
    assert s2 == AppState(start + [edited], [addRec] + [editRec]);
    DeleteAppended(start, edited);
    assert s3 == AppState(start, [addRec] + [editRec]);
    HistoryOfTwo(addRec, editRec);
  }

  lemma HistoryOfTwo(addRec: HistoryRecord, editRec: HistoryRecord)
    requires addRec.taskId == editRec.taskId
    ensures [addRec] + [editRec] == [addRec, editRec]
    ensures TaskHistory.Query([addRec, editRec], addRec.taskId) == [editRec, addRec]
  {
    var one: seq<HistoryRecord> := [addRec];
    var two: seq<HistoryRecord> := one + [editRec];
    assert two == [addRec, editRec];
    TaskHistory.QueryAppend([], addRec, addRec.taskId);
    assert [] + [addRec] == one;
    assert TaskHistory.Query([], addRec.taskId) == [];
    TaskHistory.QueryAppend(one, editRec, addRec.taskId);
  }

  lemma RunOfThree(s: AppState, c1: Command, c2: Command, c3: Command)
    ensures Run(s, [c1, c2, c3]) == Step(Step(Step(s, c1), c2), c3)
  {
    assert [c1, c2, c3][1..] == [c2, c3];
    assert [c2, c3][1..] == [c3];
    assert [c3][1..] == [];
    assert Run(s, [c1, c2, c3]) == Run(Step(s, c1), [c2, c3]);
    assert Run(Step(s, c1), [c2, c3]) == Run(Step(Step(s, c1), c2), [c3]);
    assert Run(Step(Step(s, c1), c2), [c3]) == Run(Step(Step(Step(s, c1), c2), c3), []);
  }

  lemma EditAppended(start: seq<Task>, task: Task, editText: string, editPriority: Priority, h: seq<HistoryRecord>, ts: Timestamp)
    requires !HasTask(start, task.id)
    requires !Text.IsBlank(editText) && TaskItem.HasChanges(task, editText, editPriority)
    ensures TaskItem.Save(AppState(start + [task], h), task, editText, editPriority, ts)
         == AppState(start + [task.(text := editText, priority := editPriority)], h + [TaskItem.EditRecord(task, editText, editPriority, ts)])
  {
    var u := TaskList.Update(start + [task], task.id, editText, editPriority);
    forall i | 0 <= i < |start| ensures u[i] == start[i] {
      assert start[i] in start;
      assert (start + [task])[i] == start[i];
    }
    assert u == start + [task.(text := editText, priority := editPriority)];
  }

  lemma DeleteAppended(start: seq<Task>, t: Task)
    requires !HasTask(start, t.id)
    ensures TaskList.Delete(start + [t], t.id) == start
  {
    Seqs.FilterConcat(start, [t], (u: Task) => u.id != t.id);
    assert TaskList.Delete(start, t.id) == start;
  }

  /** A sample session: "Buy milk" (low) edited to "Buy oat milk" (medium),
      then deleted. */
  lemma BuyMilkSession(id: TaskId, ts1: Timestamp, ts2: Timestamp)
    ensures
      var addRec := HistoryRecord(id, ADD, None, Snapshot("Buy milk", Low), ts1);
      var editRec := HistoryRecord(id, EDIT, Some(Snapshot("Buy milk", Low)), Snapshot("Buy oat milk", Medium), ts2);
      var r := Run(AppState([], []), [
        SubmitTask("Buy milk", Low, id, ts1),
        SaveEdit(Task(id, "Buy milk", false, Low), "Buy oat milk", Medium, ts2),
        DeleteTask(id)]);
      && r.tasks == []
      && TaskHistory.Query(r.history, id) == [editRec, addRec]
  {
    assert Text.LeadingWhitespace("Buy milk") == 0;
    assert Text.LeadingWhitespace("Buy oat milk") == 0;
    AddEditDelete([], "Buy milk", Low, "Buy oat milk", Medium, id, ts1, ts2);
  }
}
