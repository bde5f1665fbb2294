# To-do list screen: task-list state

A model of the state logic of a single-screen React Native to-do app
(`App.js`). The screen keeps an ordered list of tasks. Each task has an `id`, a
title (the field is called `title1`), a description (`desc`) and a `completed`
flag. The list starts with one seed task, `First TODO` / `Hello`. The user can
add a task through a dialog, delete a task, confirm that a task is completed,
and filter the list by typing into a search box.

The model has four modules:

- `Text`: lower-casing (`toLowerCase`) and the substring test behind the app's
  `contains` helper (`String.prototype.includes`). `Contains` is proved to be
  exactly the contiguous-substring relation.
- `Sequences`: order-preserving filtering (`Array.prototype.filter`,
  `lodash.filter`). It is proved to keep exactly the elements that satisfy the
  predicate, with their multiplicities, as a subsequence of the input.
- `Tasks`: the `Task` record, the seed and the list transformations as pure
  functions. These are `Add` (validation, then append), `Delete` (drop every
  task with the id), `CompleteById` (set `completed` on every task with the id)
  and `SearchFilter` (keep tasks whose lower-cased title contains the
  lower-cased query). Lemmas give their properties.
- `App`: the component as a class `TaskStore`. Its fields are `tasks`, the
  dialog inputs `title` and `description`, `search`, `fullData` and
  `filteredTasks`. Each event handler is a method that replaces those fields,
  and its contract ties the new state to the pure functions.

Ids are JavaScript numbers, modelled as `real`. The seed has id `1`, and new
ids come from `Math.random()`, which the model takes as a parameter of
`AddTask`. Nothing in the code keeps ids unique, so the model does not
assume it. Delete and mark-completed act on every task that carries the id.
The `*KeepsUniqueIds` lemmas state when uniqueness does hold: adding with an
id not yet in the list keeps it, and delete and mark-completed always keep it.

The search handler is modelled as written. It filters `fullData`, the list
stored by the previous keystroke, and only afterwards stores the current list
as the next snapshot. A search box is meant to filter the list as it is now;
`TaskStore.SearchCurrent` models that. See Findings.

Add, delete and mark-completed do not recompute `filteredTasks`; their
frames leave it, `search` and `fullData` as they were. While the search box
holds text, the screen therefore keeps showing the result of the last
keystroke. A task deleted or added after it stays on or stays off the
displayed list through the next keystroke as well, because that keystroke
filters the snapshot taken before the change. The change shows from the
second keystroke on, or at once when the search box is emptied. The same
holds for mark-completed: the displayed entry keeps its old `completed`
flag for as long. This is how App.js behaves, since only `searchData` sets
the filtered list and line 186 shows it whenever the search text is
non-empty. `App.StaleAfterDeleteScenario` exhibits the deletion case.

## Model

| member | source | states |
|---|---|---|
| `Text.Lower` | App.js:123-125 | lower-casing keeps the length, lower-cases each character on its own and leaves no upper-case letter |
| `Text.Contains` | App.js:131-137 | `contains(s, q)`, the `includes` test: the empty query is always contained, and a query is never contained in a shorter string |
| `Text.LowerIdempotent` | App.js:123-125 | lower-casing an already lower-cased string changes nothing |
| `Text.ContainsIff` | App.js:131-137 | `contains(s, q)` is true exactly when `q` occurs in `s` as a contiguous substring at some position |
| `Text.ContainsEmpty` | App.js:131-137 | the empty query is contained in every string |
| `Text.ContainsNeedsFirstChar` | App.js:131-137 | a non-empty query whose first character is absent from the string is not contained in it |
| `Sequences.Filter` | App.js:62 | the filter keeps each element satisfying the predicate with its full multiplicity, drops every other one, and never lengthens the list |
| `Sequences.FilterIsSubsequence` | App.js:124-126 | the filter result is a subsequence of its input, so the relative order is kept |
| `Sequences.FilterKeepsAll` | App.js:62 | filtering by a predicate every element satisfies returns the input unchanged |
| `Tasks.SeedIsAddable` | App.js:20-22 | the seed task `{id: 1, title1: 'First TODO', desc: 'Hello', completed: false}` is uncompleted with a non-empty title and description, and is exactly what a successful add of that title and description with id 1 to an empty list produces |
| `Tasks.Add` | App.js:40-51 | adding fails exactly when the title or description is empty; otherwise the result is the old list with one new task appended, carrying the given id, title and description and `completed = false` |
| `Tasks.AddKeepsUniqueIds` | App.js:44-51 | adding with an id that no task has keeps the ids pairwise distinct |
| `Tasks.Delete` | App.js:61-63 | delete removes every task with the id and keeps every other task with its multiplicity |
| `Tasks.DeleteIsSubsequence` | App.js:62 | the tasks that survive delete keep their original relative order |
| `Tasks.DeleteAbsentIsNoOp` | App.js:62 | deleting an id that no task has leaves the list unchanged |
| `Tasks.DeleteKeepsUniqueIds` | App.js:61-63 | deleting keeps pairwise distinct ids distinct |
| `Tasks.CompleteById` | App.js:78-84 | mark-completed keeps the length and order; each task with the id becomes the same task with `completed = true`, and each other task is unchanged |
| `Tasks.CompleteIsMonotone` | App.js:79-84 | after mark-completed every task with the id is completed, no completed task becomes uncompleted, and no id, title or description changes |
| `Tasks.CompleteIdempotent` | App.js:79-84 | marking the same id twice gives the same list as marking it once |
| `Tasks.CompleteKeepsUniqueIds` | App.js:79-84 | mark-completed keeps pairwise distinct ids distinct |
| `Tasks.Matches` | App.js:124-126 | the filter callback: the lower-cased title contains the lower-cased query; every task matches the empty query, and none matches a query longer than its title |
| `Tasks.SearchFilter` | App.js:123-126 | the search result holds exactly the tasks whose lower-cased title contains the lower-cased query, each with its full multiplicity |
| `Tasks.MatchesIff` | App.js:125 | a task matches exactly when the lower-cased query occurs as a substring of its lower-cased title |
| `Tasks.MatchesIgnoresQueryCase` | App.js:123 | lower-casing the query beforehand does not change which tasks match |
| `Tasks.SearchIsSubsequence` | App.js:124-126 | the search result keeps the matching tasks in their original order |
| `Tasks.SearchEmptyKeepsAll` | App.js:123-126 | the empty query keeps every task |
| `Tasks.Shown` | App.js:186 | the list handed to the renderer is the filtered list when the search text is non-empty and the full task list when it is empty |
| `Tasks.ShownIsSearchResult` | App.js:186 | if the filtered list was computed from the current tasks, showing it when the search text is non-empty and all tasks otherwise is the same as always showing the search result |
| `Tasks.SeedMatchesF` | App.js:21 | the query "f" matches the seed task "First TODO" |
| `Tasks.SeedMatchesFir` | App.js:21 | the query "fir" matches the seed task "First TODO" |
| `Tasks.SearchBuyExample` | App.js:121-127 | searching "buy" among "Buy milk", "Walk dog" and "Buy bread" yields the first and third task, in that order |
| `App.TaskStore.constructor` | App.js:20-29 | a fresh screen holds only the seed task, empty inputs, empty search text and empty snapshot and result lists |
| `App.TaskStore.Displayed` | App.js:186 | the screen renders `filteredTasks` while `search` is non-empty and `tasks` while it is empty |
| `App.TaskStore.SetTitle` | App.js:195 | typing in the title input replaces the title and nothing else |
| `App.TaskStore.SetDescription` | App.js:201 | typing in the description input replaces the description and nothing else |
| `App.TaskStore.AddTask` | App.js:40-58 | with an empty input the tasks and inputs are unchanged and the add is reported as refused; otherwise one uncompleted task with the given id and the input texts is appended and both inputs are cleared |
| `App.TaskStore.DeleteTodo` | App.js:61-64 | the new task list is the old one without the tasks carrying the id; nothing else changes |
| `App.TaskStore.MarkCompleted` | App.js:78-87 | the new task list is the old one with the tasks carrying the id completed; its length is kept and no task loses its completion |
| `App.TaskStore.SearchData` | App.js:121-129 | the result is the search over the previous snapshot, the snapshot becomes the current list, the search text is stored, and the displayed list is all tasks for empty text and that result otherwise |
| `App.TaskStore.SearchCurrent` | App.js:121-129 | the result is the search over the current list, and the displayed list is exactly that search result, for empty text too |
| `App.StaleSearchScenario` | App.js:121-129 | on a fresh screen, typing "f" displays nothing although the seed task matches "f" |
| `App.StaleAfterDeleteScenario` | App.js:121-129 | after two keystrokes, deleting the seed task leaves it displayed after the next keystroke, and it disappears only on the keystroke after that |
| `App.CurrentSearchScenario` | App.js:121-129 | on a fresh screen, typing "f" with the corrected search displays the seed task |

## Findings

| source | as written | input that shows it | evidently intended | confidence | as-written member | corrected member |
|---|---|---|---|---|---|---|
| App.js:121-129 | `searchData` filters `fullData`, the list stored by the previous keystroke (the empty list before the first one), and only then stores the current list | fresh screen, type "f": the seed task "First TODO" matches, yet the list shows nothing (`App.StaleSearchScenario`); a task added between keystrokes is likewise missing from the next result | filter the current task list on every keystroke (`App.CurrentSearchScenario` shows the seed task) | not executed | `App.TaskStore.SearchData` | `App.TaskStore.SearchCurrent` |

## Left out

- Text.Lower: only the ASCII letters A-Z are lower-cased; the full Unicode mapping of `toLowerCase` (including characters whose lower case has a different length) is not modelled.
- Id generation with `Math.random()` (App.js:45): the id is a parameter of `AddTask`. Its range [0, 1) is not used, so the model does not show that a new id can never equal the seed's id `1`.
- Id comparison uses JavaScript's loose `==` and `!=` on numbers; the model compares reals, so `NaN` ids are not modelled.
- Persistence: `storeData` and `getData` (App.js:90-109) call AsyncStorage and `JSON.stringify`/`JSON.parse`. These are asynchronous device I/O and library calls, so the storage round trip is not modelled.
- The `useEffect` hooks that load once and save after each change (App.js:31-37) belong to React's scheduling.
- React's batching of state setters: each handler is modelled as one atomic update that reads the state as it was when the handler started, which is how the handlers in App.js see it.
- The confirmation alert around mark-completed (App.js:67-76), the error alert on an empty add (App.js:42), `Keyboard.dismiss`, and the dialog visibility state (App.js:26, 54, 113-119). These are UI side effects. `AddTask` reports the refusal as `added = false`.
- Rendering, layout and styles (App.js:139-168, 170-215, 218-262). The list data selection at App.js:186 is kept as `Tasks.Shown` and `TaskStore.Displayed`.
- The internals of `lodash.filter`: it is modelled as order-preserving filtering of a sequence.
