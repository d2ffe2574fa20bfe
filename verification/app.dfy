/** The derived view the application renders: the task collection filtered
    by the search term or, when the search term is empty, by the selected
    filter. It reads the tasks and never changes them. */
module App {
  import opened Domain
  import Text
  import Seqs

  /** Whether `task` is shown. A non-empty search term decides alone, by a
      case-insensitive substring test; otherwise `filter` decides: "all"
      shows everything, "completed" shows completed tasks and any other
      value shows the incomplete ones. */
  predicate Shown(task: Task, filter: string, searchTerm: string) {
    if searchTerm != "" then Text.Contains(Text.ToLower(task.text), Text.ToLower(searchTerm))
    else if filter == "all" then true
    else if filter == "completed" then task.completed
    else !task.completed
  }

  function FilteredTasks(tasks: seq<Task>, filter: string, searchTerm: string): (r: seq<Task>)
    ensures Seqs.IsSubsequence(r, tasks)
    ensures forall t :: multiset(r)[t] == if Shown(t, filter, searchTerm) then multiset(tasks)[t] else 0
    ensures searchTerm != "" ==> forall t :: t in r <==>
      t in tasks && Text.Contains(Text.ToLower(t.text), Text.ToLower(searchTerm))
    ensures searchTerm == "" && filter == "all" ==> r == tasks
    ensures searchTerm == "" && filter == "completed" ==> forall t :: t in r <==> t in tasks && t.completed
    ensures searchTerm == "" && filter != "all" && filter != "completed" ==>
      forall t :: t in r <==> t in tasks && !t.completed
  {
    var p := (t: Task) => Shown(t, filter, searchTerm);
    Seqs.FilterMultiset(tasks, p);
    Seqs.FilterMembers(tasks, p);
    if searchTerm == "" && filter == "all" then
      Seqs.FilterAll(tasks, p);
      Seqs.Filter(tasks, p)
    else
      Seqs.Filter(tasks, p)
  }

  /** With a non-empty search term the filter selection is irrelevant. */
  lemma SearchOverridesFilter(tasks: seq<Task>, filter1: string, filter2: string, searchTerm: string)
    requires searchTerm != ""
    ensures FilteredTasks(tasks, filter1, searchTerm) == FilteredTasks(tasks, filter2, searchTerm)
  {
    Seqs.FilterCongruent(tasks, (t: Task) => Shown(t, filter1, searchTerm), (t: Task) => Shown(t, filter2, searchTerm));
  }

  /** Search terms that agree after lower-casing select the same tasks. */
  lemma SearchIgnoresCase(tasks: seq<Task>, filter: string, term1: string, term2: string)
    requires Text.ToLower(term1) == Text.ToLower(term2)
    ensures FilteredTasks(tasks, filter, term1) == FilteredTasks(tasks, filter, term2)
  {
    assert |term1| == |term2|;
    Seqs.FilterCongruent(tasks, (t: Task) => Shown(t, filter, term1), (t: Task) => Shown(t, filter, term2));
  }

  /** "DOG", "Dog" and "dog" find the same tasks. */
  lemma DogInAnyCase(tasks: seq<Task>, filter: string)
    ensures FilteredTasks(tasks, filter, "DOG") == FilteredTasks(tasks, filter, "dog")
    ensures FilteredTasks(tasks, filter, "Dog") == FilteredTasks(tasks, filter, "dog")
  {
    assert Text.ToLower("DOG") == "dog";
    assert Text.ToLower("Dog") == "dog";
    assert Text.ToLower("dog") == "dog";
    SearchIgnoresCase(tasks, filter, "DOG", "dog");
    SearchIgnoresCase(tasks, filter, "Dog", "dog");
  }
}
