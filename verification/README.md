# Task manager: task state machine and history ledger

This project models the core of a single-user task list editor. The
application keeps two collections. `tasks` holds records
`{id, text, completed, priority}`. `taskHistory` is an append-only ledger of
`ADD` and `EDIT` records. Four commands change them:

- the form's submit handler adds a task and writes an `ADD` record;
- a row's save handler edits a task and writes an `EDIT` record;
- toggle flips a task's `completed` flag;
- delete removes a task.

Two read-only views are derived from the collections. The task history view
shows one task's records, newest first. The filtered list applies the search
term or the selected filter.

Each operation is a pure Dafny function over `seq<Task>` and
`seq<HistoryRecord>`. Each command is one transition of an `AppState` that
holds both collections. The modules follow the source files:

- `Domain` holds the record types.
- `TaskList` models `TaskList.jsx`, `TaskForm` models `TaskForm.jsx`, `TaskItem` models `TaskItem.jsx`, `TaskHistory` models `TaskHistory.jsx` and `App` models `App.jsx`.
- `Text` holds the string helpers `trim`, `toLowerCase` and `includes`.
- `Seqs` holds the array helpers `filter` and `reverse`, and the subsequence relation.
- `Session` strings commands together and states what holds across a whole session.

Modelling decisions:

- The clock is a parameter. `Date.now()` (the new task id) and `toISOString()` (the record timestamp) are passed to the commands, so the model never reads a clock.
- Ids are unbounded integers. The source never checks that they are unique. Uniqueness is a precondition of the lemmas that need it, and those lemmas prove that the commands keep ids unique.
- `Text.Trim` strips exactly the characters ECMAScript's `String.prototype.trim` strips: the WhiteSpace and LineTerminator code points.
- The edit command receives the `task` object the row renders. Like the source, it does not check that this task is still in the collection.
- Priority is the enumeration the `<select>` offers: low, medium, high.

Behaviour of the code worth noting:

- `useLocalStorage` calls `JSON.parse` with no try/catch (src/hooks/useLocalStorage.js:37), so a corrupt stored value throws. Persistence is outside this model.
- `handleSave` compares the stored text with the TRIMMED edit text, but it stores the UNTRIMMED text (src/components/task/TaskItem.jsx:26,34,39). So a stored text with surrounding whitespace, saved unchanged, still counts as a change and records an `EDIT` whose old and new values are equal. `TaskItem.UnchangedSaveOfPaddedText` and `TaskItem.PaddedMilkRecordsEdit` state this behaviour.

## Model

| member | source | states |
|---|---|---|
| `TaskList.Toggle` | src/components/task/TaskList.jsx:4-8 | length and order are kept; every position keeps its id, text and priority; `completed` flips exactly at the positions whose id is the given id; every other task is unchanged |
| `TaskList.ToggleInvolution` | src/components/task/TaskList.jsx:5-7 | toggling the same id twice gives back the original collection |
| `TaskList.ToggleAbsent` | src/components/task/TaskList.jsx:6 | toggling an id that no task has changes nothing |
| `TaskList.Update` | src/components/task/TaskList.jsx:14-18 | length and order are kept; ids and `completed` never change; matching tasks get the given text and priority; every other task is unchanged |
| `TaskList.UpdateAbsent` | src/components/task/TaskList.jsx:16 | updating an id that no task has changes nothing |
| `TaskList.UpdateIdempotent` | src/components/task/TaskList.jsx:15-17 | applying the same update twice equals applying it once |
| `TaskList.Delete` | src/components/task/TaskList.jsx:10-12 | no task with the id remains; every other task keeps its number of occurrences; the result is a subsequence of the input, so relative order is kept; the result equals the input exactly when no task has the id |
| `TaskList.DeleteIdempotent` | src/components/task/TaskList.jsx:11 | deleting twice equals deleting once |
| `TaskList.MapsKeepUniqueIds` | src/components/task/TaskList.jsx:4-18 | toggle and update keep the ids of a collection distinct |
| `TaskList.DeleteKeepsUniqueIds` | src/components/task/TaskList.jsx:11 | delete keeps ids distinct; with distinct ids, deleting a present id removes exactly one task |
| `TaskForm.Submit` | src/components/task/TaskForm.jsx:7-27 | blank text leaves both collections unchanged; otherwise the old tasks are a prefix of the new ones and the one new task is `{id, untrimmed text, completed false, priority}`; the old ledger is a prefix of the new one and the one new record is ADD, has no old value, has new value `{text, priority}`, carries the new task's id and has the given timestamp |
| `TaskForm.BlankSubmissionsIgnored` | src/components/task/TaskForm.jsx:9 | submitting "", "   " or " \t\n" changes nothing |
| `TaskForm.StoresUntrimmedText` | src/components/task/TaskForm.jsx:12-17 | " milk " is stored with its surrounding spaces, as an incomplete task |
| `TaskForm.SubmitKeepsUniqueIds` | src/components/task/TaskForm.jsx:11-17 | a submission with a fresh id keeps the ids distinct |
| `TaskForm.SubmitShowsInHistory` | src/components/task/TaskForm.jsx:19-24 | after a successful submission, the new id's history is its ADD record followed by any older records under that id |
| `TaskItem.Save` | src/components/task/TaskItem.jsx:21-44 | blank edit text changes nothing; the ledger grows by one record exactly when the text is not blank and the stored text differs from the trimmed edit text or the priority differs, otherwise nothing changes; the old ledger is a prefix of the new one; the new record is EDIT with the task's id, old value = the task's `{text, priority}`, new value = the untrimmed `{editText, editPriority}`; tasks become the update of the task's id with the untrimmed text |
| `TaskItem.TrimmedEqualIsNoChange` | src/components/task/TaskItem.jsx:26 | an edit whose trimmed text equals the stored text, with the same priority, changes neither collection |
| `TaskItem.TrailingSpaceEditIgnored` | src/components/task/TaskItem.jsx:26-28 | stored "milk" edited to "milk " with the same priority: no update and no record |
| `TaskItem.UnchangedSaveOfPaddedText` | src/components/task/TaskItem.jsx:26-36 | a stored text with surrounding whitespace, saved unchanged, appends one EDIT record whose old and new values are equal |
| `TaskItem.PaddedMilkRecordsEdit` | src/components/task/TaskItem.jsx:26-39 | stored "milk " saved unchanged records an EDIT from "milk " to "milk " and still calls update |
| `TaskItem.SaveEditsOnlyTarget` | src/components/task/TaskItem.jsx:30-39 | with distinct ids and the task taken from the collection, a saved change rewrites only that position, to the edited text and priority with id and completion kept, and the record's old value is the stored task's values |
| `TaskItem.SaveKeepsUniqueIds` | src/components/task/TaskItem.jsx:39 | saving keeps ids distinct |
| `TaskHistory.Query` | src/components/task/TaskHistory.jsx:8-10 | every record in the result has the requested task id; the result is no longer than the ledger |
| `TaskHistory.QueryExact` | src/components/task/TaskHistory.jsx:8-9 | the result holds each record of the task as many times as the ledger does and no other record; a record is in the result exactly when it is in the ledger with that task id |
| `TaskHistory.QueryNewestFirst` | src/components/task/TaskHistory.jsx:10 | the result read back to front is a subsequence of the ledger, so the records are in reverse insertion order |
| `TaskHistory.QueryConcat` | src/components/task/TaskHistory.jsx:8-10 | the query of `old + added` is the query of `added` followed by the query of `old` |
| `TaskHistory.QueryAppend` | src/components/task/TaskHistory.jsx:8-10 | appending a record of the task puts it first in the result; appending a record of another task leaves the result unchanged |
| `TaskHistory.QueryOfExtension` | src/components/task/TaskHistory.jsx:8-10 | for a ledger that extends an older one, the old query is the tail of the new query |
| `App.FilteredTasks` | src/App.jsx:26-34 | the result is a subsequence of the tasks and holds each shown task as often as the tasks do; with a non-empty search term the shown tasks are those whose lower-cased text contains the lower-cased term; with an empty term, "all" gives the tasks unchanged, "completed" gives exactly the completed tasks, and any other filter gives exactly the incomplete tasks |
| `App.SearchOverridesFilter` | src/App.jsx:28-30 | with a non-empty search term, the result does not depend on the filter |
| `App.SearchIgnoresCase` | src/App.jsx:29 | two search terms that agree after lower-casing give the same result |
| `App.DogInAnyCase` | src/App.jsx:29 | "DOG", "Dog" and "dog" select the same tasks |
| `Text.Trim` | src/components/task/TaskForm.jsx:9 | the result is the infix between a whitespace-only prefix and a whitespace-only suffix; it is empty or starts and ends with non-whitespace; it is empty exactly when the input is all whitespace |
| `Text.Contains` | src/App.jsx:29 | true exactly when the substring occurs at some index of the string |
| `Text.ToLower` | src/App.jsx:29 | length is kept; no ASCII capital remains; each capital A-Z becomes the letter 32 code points above it, and every other character is kept |
| `Session.Step` | src/components/task/TaskList.jsx:4-18 | dispatching to the toggle, update and delete handlers here, to `handleSubmit` (TaskForm.jsx:7-27) and to `handleSave` (TaskItem.jsx:21-44): every command keeps the old ledger as a prefix and adds at most one record; toggle and delete leave the ledger unchanged; toggle keeps the number of tasks; delete leaves no task with the id |
| `Session.Run` | src/components/task/TaskItem.jsx:21-44 | applying `handleSave`, `handleSubmit` (TaskForm.jsx:7-27) and the handlers of TaskList.jsx:4-18 in order: over any sequence of commands the ledger only grows, by at most one record per command |
| `Session.HistorySurvives` | src/components/task/TaskHistory.jsx:8-10 | after any further commands, deletes included, a task's old history is still the tail of its history |
| `Session.RunKeepsUniqueIds` | src/components/task/TaskForm.jsx:11-17 | ids stay distinct over a session in which every submitted id is fresh |
| `Session.StepRefersToKnown` | src/components/task/TaskItem.jsx:30-36 | if every task and record names a known id, this still holds after a step once the submitted id is added to the known ids, provided edits are issued for tasks in the collection |
| `Session.AddEditDelete` | src/components/task/TaskForm.jsx:7-27 | add, a detected edit, then delete of the same fresh id: the tasks end as they began, the ledger holds the ADD and the EDIT record, and the task's history shows EDIT then ADD |
| `Session.BuyMilkSession` | src/components/task/TaskItem.jsx:21-44 | `handleSubmit` (TaskForm.jsx:7-27), this `handleSave` and `deleteTask` (TaskList.jsx:10-12) in turn: "Buy milk" (low) edited to "Buy oat milk" (medium) and then deleted: the collection is empty and the task's history still shows both records, newest first |

## Left out

- Persistence (src/hooks/useLocalStorage.js): `localStorage` reads and writes and the JSON encoding are platform I/O. Each command starts from collections that are already loaded.
- React machinery: `useState`, `useEffect`, `useMemo` memoisation and functional-update scheduling. Each command is one sequential transition over both collections.
- Rendering: JSX, CSS classes, priority colours and badges, and the statistics, filter-button and search-bar components. These components are not part of this model.
- Display formatting: the locale rendering of timestamps and the history display strings (src/components/task/TaskHistory.jsx:20-30).
- The clock: `Date.now()` and `toISOString()` are opaque parameters. Whether ids are unique and timestamps monotone is therefore not proved; uniqueness is assumed where a lemma needs it.
- `console.log` calls.
- Text.ToLower: maps only the ASCII letters A-Z, because the Unicode case mappings of `toLowerCase` are a large table outside this core; the case-insensitivity lemmas hold for this mapping.
- Strings are sequences of Unicode scalar values (Dafny `char`), while JavaScript strings are sequences of UTF-16 code units. A lone surrogate is therefore not representable; well-formed text is unaffected.
