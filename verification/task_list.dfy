/** The three id-keyed collection updates of the task list: toggle and
    update are `map`s that rewrite the matching tasks, delete is a `filter`
    that drops them. None of them reads or writes the history ledger. */
module TaskList {
  import opened Domain
  import Seqs

  /** Flips `completed` on every task whose id is `id`. */
  function Toggle(tasks: seq<Task>, id: TaskId): (r: seq<Task>)
    ensures |r| == |tasks|
    ensures forall i :: 0 <= i < |r| ==>
      r[i].id == tasks[i].id && r[i].text == tasks[i].text && r[i].priority == tasks[i].priority
    ensures forall i :: 0 <= i < |r| ==> (r[i].completed != tasks[i].completed <==> tasks[i].id == id)
    ensures forall i :: 0 <= i < |r| && tasks[i].id != id ==> r[i] == tasks[i]
    decreases |tasks|
  {
    if tasks == [] then []
    else
      var t := tasks[0];
      [if t.id == id then t.(completed := !t.completed) else t] + Toggle(tasks[1..], id)
  }

  /** Replaces text and priority of every task whose id is `id`. The text is
      stored as given, untrimmed. */
  function Update(tasks: seq<Task>, id: TaskId, newText: string, newPriority: Priority): (r: seq<Task>)
    ensures |r| == |tasks|
    ensures forall i :: 0 <= i < |r| ==> r[i].id == tasks[i].id && r[i].completed == tasks[i].completed
    ensures forall i :: 0 <= i < |r| && tasks[i].id == id ==>
      r[i].text == newText && r[i].priority == newPriority
    ensures forall i :: 0 <= i < |r| && tasks[i].id != id ==> r[i] == tasks[i]
    decreases |tasks|
  {
    if tasks == [] then []
    else
      var t := tasks[0];
      [if t.id == id then t.(text := newText, priority := newPriority) else t]
        + Update(tasks[1..], id, newText, newPriority)
  }

  /** Removes every task whose id is `id`, keeping the others in order. */
  function Delete(tasks: seq<Task>, id: TaskId): (r: seq<Task>)
    ensures forall i :: 0 <= i < |r| ==> r[i].id != id
    ensures forall t :: multiset(r)[t] == if t.id != id then multiset(tasks)[t] else 0
    ensures Seqs.IsSubsequence(r, tasks)
    ensures !HasTask(tasks, id) <==> r == tasks
  {
    Seqs.FilterUnchanged(tasks, (t: Task) => t.id != id);
    Seqs.FilterMultiset(tasks, (t: Task) => t.id != id);
    Seqs.Filter(tasks, (t: Task) => t.id != id)
  }

  /** Toggling the same id twice restores the collection. */
  lemma {:induction false} ToggleInvolution(tasks: seq<Task>, id: TaskId)
    ensures Toggle(Toggle(tasks, id), id) == tasks
    decreases |tasks|
  {
    if tasks != [] {
      ToggleInvolution(tasks[1..], id);
    }
  }

  /** Toggling an id no task has changes nothing. */
  lemma {:induction false} ToggleAbsent(tasks: seq<Task>, id: TaskId)
    requires !HasTask(tasks, id)
    ensures Toggle(tasks, id) == tasks
    decreases |tasks|
  {
    if tasks != [] {
      assert tasks[0] in tasks;
      assert !HasTask(tasks[1..], id) by {
        forall t | t in tasks[1..] ensures t.id != id {
          assert t in tasks;
        }
      }
      ToggleAbsent(tasks[1..], id);
    }
  }

  /** Updating an id no task has changes nothing. */
  lemma {:induction false} UpdateAbsent(tasks: seq<Task>, id: TaskId, newText: string, newPriority: Priority)
    requires !HasTask(tasks, id)
    ensures Update(tasks, id, newText, newPriority) == tasks
    decreases |tasks|
  {
    if tasks != [] {
      assert tasks[0] in tasks;
      assert !HasTask(tasks[1..], id) by {
        forall t | t in tasks[1..] ensures t.id != id {
          assert t in tasks;
        }
      }
      UpdateAbsent(tasks[1..], id, newText, newPriority);
    }
  }

  /** Applying the same update twice is the same as applying it once. */
  lemma {:induction false} UpdateIdempotent(tasks: seq<Task>, id: TaskId, newText: string, newPriority: Priority)
    ensures Update(Update(tasks, id, newText, newPriority), id, newText, newPriority)
         == Update(tasks, id, newText, newPriority)
    decreases |tasks|
  {
    if tasks != [] {
      UpdateIdempotent(tasks[1..], id, newText, newPriority);
    }
  }

  /** Deleting twice is the same as deleting once. */
  lemma DeleteIdempotent(tasks: seq<Task>, id: TaskId)
    ensures Delete(Delete(tasks, id), id) == Delete(tasks, id)
  {
    var r := Delete(tasks, id);
    assert !HasTask(r, id) by {
      forall t | t in r ensures t.id != id {
        var i :| 0 <= i < |r| && r[i] == t;
      }
    }
  }

  /** Toggle and update keep the ids where they are, so they keep them
      distinct. */
  lemma MapsKeepUniqueIds(tasks: seq<Task>, id: TaskId, newText: string, newPriority: Priority)
    requires UniqueIds(tasks)
    ensures UniqueIds(Toggle(tasks, id))
    ensures UniqueIds(Update(tasks, id, newText, newPriority))
  {
  }

  /** A filtered collection of distinct ids has distinct ids. */
  lemma {:induction false} FilterKeepsUniqueIds(tasks: seq<Task>, p: Task -> bool)
    requires UniqueIds(tasks)
    ensures UniqueIds(Seqs.Filter(tasks, p))
    decreases |tasks|
  {
    if tasks != [] {
      var rest := Seqs.Filter(tasks[1..], p);
      FilterKeepsUniqueIds(tasks[1..], p);
      if p(tasks[0]) {
        Seqs.FilterMembers(tasks[1..], p);
        forall u | u in rest ensures u.id != tasks[0].id {
          assert u in tasks[1..];
          var k :| 0 <= k < |tasks[1..]| && tasks[1..][k] == u;
          assert tasks[k + 1] == u;
        }
        UniqueCons(tasks[0], rest);
      }
    }
  }

  lemma UniqueCons(t: Task, rest: seq<Task>)
    requires UniqueIds(rest)
    requires forall u :: u in rest ==> u.id != t.id
    ensures UniqueIds([t] + rest)
  {
    var r := [t] + rest;
    forall i, j | 0 <= i < j < |r| ensures r[i].id != r[j].id {
      assert r[j] == rest[j - 1];
      if i > 0 {
        assert r[i] == rest[i - 1];
      }
    }
  }

  /** Deleting keeps ids distinct, and removes exactly one task when the id
      is present. */
  lemma DeleteKeepsUniqueIds(tasks: seq<Task>, id: TaskId)
    requires UniqueIds(tasks)
    ensures UniqueIds(Delete(tasks, id))
    ensures HasTask(tasks, id) ==> |Delete(tasks, id)| == |tasks| - 1
  {
    FilterKeepsUniqueIds(tasks, (t: Task) => t.id != id);
    if HasTask(tasks, id) {
      var t :| t in tasks && t.id == id;
      OnlyOneWithId(tasks, t);
      var r := Delete(tasks, id);
      assert multiset(tasks) == multiset(r) + multiset{t} by {
        forall u ensures multiset(tasks)[u] == (multiset(r) + multiset{t})[u] {
          if u.id == id && u != t {
            assert u !in tasks;
          }
        }
      }
      assert |multiset(tasks)| == |multiset(r)| + 1;
    }
  }

  /** With distinct ids, a task is the only element carrying its id, and it
      occurs once. */
  lemma OnlyOneWithId(tasks: seq<Task>, t: Task)
    requires UniqueIds(tasks) && t in tasks
    ensures forall u :: u in tasks && u.id == t.id ==> u == t
    ensures multiset(tasks)[t] == 1
  {
    var i :| 0 <= i < |tasks| && tasks[i] == t;
    forall u | u in tasks && u.id == t.id ensures u == t {
      var j :| 0 <= j < |tasks| && tasks[j] == u;
      assert i == j;
    }
    var before, after := tasks[..i], tasks[i + 1..];
    assert tasks == before + [t] + after;
    forall u | u in before ensures u != t {
      var k :| 0 <= k < i && before[k] == u;
      assert tasks[k] == u;
    }
    forall u | u in after ensures u != t {
      var k :| 0 <= k < |after| && after[k] == u;
      assert tasks[i + 1 + k] == u;
    }
  }
}
