# Task list of the TaskManager main window, in Dafny

TaskManager is a desktop to-do list. Its main window keeps an ordered list of
tasks (a title and a done flag) and a search box. Buttons add, edit, delete
and toggle the selected task and sort the list, either A-Z or done first. Rows
can be reordered by drag-and-drop. Every change except drag-reorder ends by
recomputing the search filter and refreshing the window; drag-reorder only
refreshes. The refresh redraws the rows from
the filtered list, or from the whole list when the search box is blank,
rewrites the stats label `Stats: N tasks (M done)` and saves the list.

The project models that list logic.

- `Text` holds the string primitives:
  - the `Char.IsWhiteSpace` set behind `IsNullOrWhiteSpace` and `Trim`;
  - case-insensitive `IndexOf`;
  - decimal formatting of counts;
  - a comparer that orders strings lexicographically by code point.
- `Sorting` is a stable sort under any comparator that is a total preorder.
  This is the contract of LINQ's `OrderBy`/`ThenBy`.
- `Tasks` holds the task value and the pure list functions: the search
  filter, the done count and the stats label, the `RemoveAt`/`Insert` move
  of drag-reorder, and the two sort orders.
- `Form` is the window's state as a class `MainForm`. Its fields are the task
  list, the filter result, the search text, the shown rows, the label text
  and the last saved list. One method per handler of the window states the
  new state in full, and all of them keep the invariant `Valid()`:
  - the filter agrees with the search text;
  - the rows are the visible list;
  - the label shows the rows' counts;
  - the saved list is the current list.
- `Scenarios` drives the class through short sessions, using only the
  methods' contracts: open an empty window, add a task, sort two tasks,
  toggle a task, search and then drag.

Drag-reorder takes the dragged and target row positions in the list view.
These are positions in the visible list, which may be filtered. The window
applies them to the full task list and refreshes without recomputing the
filter. The model does the same. `DragDrop` requires both positions to be
rows. The invariant `|rows| <= |tasks|` makes them valid task positions.
Afterwards the kept filter may list its tasks in their old order.
`Valid()` therefore only requires the filter to hold the right tasks, as a
multiset, and `MoveKeepsFilter` proves that a move preserves this.

The consequence under an active search is that the task that moves is the
one at the row's position in the full list, which need not be the dragged
task, and the rows do not change. `Scenarios.SearchThenDrag` shows it: with
the search " AB " over `[c, ab, xAB]` the rows are `[ab, xAB]`, and dragging
row 0 ("ab") onto row 1 removes the task at position 0 of the full list, the
hidden "c", and inserts it at position 1, giving `[ab, c, xAB]`, while the
rows stay `[ab, xAB]`.

Sort A-Z calls `OrderBy(t => t.Title)`, which uses the default
culture-sensitive string comparer, not an ordinal one. The model follows the
code. Its title comparer is abstract: a parameter of the window
that must be a total preorder. `Text.CodePointLe` is one comparer that
qualifies, and the scenarios use it.

## Model

| member | source | states |
|---|---|---|
| Text.TrimStart | TaskManager/TaskManager/MainForm.cs:264 | the result is a suffix of the input, everything dropped is whitespace, and it does not start with whitespace |
| Text.TrimEnd | TaskManager/TaskManager/MainForm.cs:264 | the result is a prefix of the input, everything dropped is whitespace, and it does not end with whitespace |
| Text.Trim | TaskManager/TaskManager/MainForm.cs:258-264 | trimming gives the empty string exactly when `IsNullOrWhiteSpace` holds; otherwise the result neither starts nor ends with whitespace |
| Text.BlankConcat | TaskManager/TaskManager/MainForm.cs:258 | a concatenation is blank exactly when both parts are |
| Text.TrimIsSlice | TaskManager/TaskManager/MainForm.cs:264 | the trimmed query is a contiguous slice of the search text with a blank prefix and a blank suffix removed |
| Text.FoldAlike | TaskManager/TaskManager/MainForm.cs:265 | two characters are equal ignoring case exactly when they are equal or one is an ASCII lower-case letter and the other its upper-case form |
| Text.FoldIdempotent | TaskManager/TaskManager/MainForm.cs:265 | folding is idempotent and never yields a lower-case letter, so comparing ignoring case compares the folded forms |
| Text.MatchesAt | TaskManager/TaskManager/MainForm.cs:265 | the query occurs at a position of the title, ignoring case; Text.IndexOfIgnoreCase is stated in its terms |
| Text.ContainsIgnoreCase | TaskManager/TaskManager/MainForm.cs:265 | `IndexOf(query, OrdinalIgnoreCase) >= 0`; its meaning is proved by Text.ContainsIgnoreCaseMeans |
| Text.IsWhiteSpace | TaskManager/TaskManager/MainForm.cs:258 | the `Char.IsWhiteSpace` set, written out; used by Text.IsBlank and the trims |
| Text.IsBlank | TaskManager/TaskManager/MainForm.cs:258 | `IsNullOrWhiteSpace` on a non-null string, also used at :273 and :285; Text.Trim and Text.BlankConcat state its properties |
| Text.IndexOfFrom | TaskManager/TaskManager/MainForm.cs:265 | the result is -1 or a position at or after the start where the query occurs ignoring case, and no earlier such position from the start has an occurrence |
| Text.IndexOfIgnoreCase | TaskManager/TaskManager/MainForm.cs:265 | `IndexOf(query, OrdinalIgnoreCase)` is -1 exactly when the query occurs nowhere, and otherwise is the first occurrence |
| Text.ContainsIgnoreCaseMeans | TaskManager/TaskManager/MainForm.cs:265 | `IndexOf(...) >= 0` holds exactly when the query occurs at some position of the title, ignoring case |
| Text.NatToString | TaskManager/TaskManager/MainForm.cs:252 | a count is formatted as a non-empty string of decimal digits with no leading zero |
| Text.ParseNatToString | TaskManager/TaskManager/MainForm.cs:252 | reading the formatted digits back gives the count that was formatted |
| Text.CodePointLeTotal | TaskManager/TaskManager/MainForm.cs:310 | the code-point comparer relates any two titles one way or the other |
| Text.CodePointLeTransitive | TaskManager/TaskManager/MainForm.cs:310 | the code-point comparer is transitive |
| Sorting.Insert | TaskManager/TaskManager/MainForm.cs:310 | inserting adds exactly the one element to the multiset |
| Sorting.Sort | TaskManager/TaskManager/MainForm.cs:310 | sorting yields a permutation of its input |
| Sorting.InsertSorted | TaskManager/TaskManager/MainForm.cs:310 | inserting into an ordered sequence under a total preorder keeps it ordered |
| Sorting.SortSorted | TaskManager/TaskManager/MainForm.cs:310 | the sort result is ordered by the comparator |
| Sorting.InsertStable | TaskManager/TaskManager/MainForm.cs:310 | inserting reorders no two elements the comparator ranks equal |
| Sorting.SortStable | TaskManager/TaskManager/MainForm.cs:310 | elements ranked equal keep their original relative order: the sort is stable, as `OrderBy` is |
| Sorting.SortedStableUnique | TaskManager/TaskManager/MainForm.cs:310 | two ordered permutations of each other with the same order inside every rank class are equal, so a stable sort has exactly one possible result |
| Sorting.SameHead | TaskManager/TaskManager/MainForm.cs:310 | two such sequences begin with the same element |
| Sorting.SameTail | TaskManager/TaskManager/MainForm.cs:310 | dropping a common first element keeps the permutation and the agreement of every rank class |
| Sorting.LeastLeAll | TaskManager/TaskManager/MainForm.cs:310 | the first element of an ordered sequence is at most every element in it |
| Sorting.SortIsTheStableSort | TaskManager/TaskManager/MainForm.cs:310 | any ordered permutation that keeps every rank class in input order is the insertion sort's result, so the model is `OrderBy`'s result whatever stable algorithm computes it |
| Tasks.Matches | TaskManager/TaskManager/MainForm.cs:265 | the `Where` lambda: the title contains the query, ignoring case; proved to mean an occurrence by Text.ContainsIgnoreCaseMeans |
| Tasks.Filter | TaskManager/TaskManager/MainForm.cs:265 | the search never yields more tasks than the list holds |
| Tasks.FilterSound | TaskManager/TaskManager/MainForm.cs:265 | every task the search yields is a task of the list whose title contains the query |
| Tasks.FilterIsSubsequence | TaskManager/TaskManager/MainForm.cs:265 | the search result is the list read at ascending positions, and a position is among them exactly when its task matches: the order-preserving subsequence of matching tasks |
| Tasks.FilterMultiset | TaskManager/TaskManager/MainForm.cs:265 | each task occurs in the search result as often as in the list if it matches, and not at all otherwise |
| Tasks.FilterPermutation | TaskManager/TaskManager/MainForm.cs:265 | searching two permutations of a list finds the same tasks, equally often |
| Tasks.FilterSubMultiset | TaskManager/TaskManager/MainForm.cs:265 | the search only drops tasks |
| Tasks.SearchFilter | TaskManager/TaskManager/MainForm.cs:256-266 | the definition of the filter at :258-266; beyond its body it promises that a non-blank text trims to a non-empty query; its meaning is proved by Tasks.SearchVisible and Tasks.SearchFilterKeeps |
| Tasks.SearchFilterKeeps | TaskManager/TaskManager/MainForm.cs:256-266 | a search keeps only tasks of the list whose title contains the trimmed text, and never more often than they occur |
| Tasks.Visible | TaskManager/TaskManager/MainForm.cs:243 | `filteredTasks ?? tasks`; what it shows after a search is proved by Tasks.SearchVisible and Form.MainForm.VisibleWithinTasks |
| Tasks.SearchVisible | TaskManager/TaskManager/MainForm.cs:256-266 | after a search, a blank text shows the whole list; otherwise it shows the tasks at ascending positions, exactly those whose title contains the trimmed text ignoring case |
| Tasks.CountDone | TaskManager/TaskManager/MainForm.cs:252 | the done count never exceeds the number of tasks counted |
| Tasks.CountDoneExtremes | TaskManager/TaskManager/MainForm.cs:252 | the done count is zero exactly when no task is done, and equals the length exactly when all are |
| Tasks.CountDoneConcat | TaskManager/TaskManager/MainForm.cs:252 | the done count of a concatenation is the sum of the parts' counts |
| Tasks.CountDonePermutation | TaskManager/TaskManager/MainForm.cs:252 | the done count does not depend on the order of the tasks |
| Tasks.CountDoneRemoveAt | TaskManager/TaskManager/MainForm.cs:252 | removing one task lowers the done count by one exactly when that task was done |
| Tasks.StatsLabel | TaskManager/TaskManager/MainForm.cs:252 | the label text; its meaning is proved by Tasks.StatsLabelShows |
| Tasks.StatsLabelShows | TaskManager/TaskManager/MainForm.cs:252 | the label reads `Stats: T tasks (D done)` with T and D decimal numerals; T is the length of the visible list, and D is the number of visible done tasks, at most T |
| Tasks.RemoveAt | TaskManager/TaskManager/MainForm.cs:343 | removing at a position shortens the list by one, keeps the tasks before it and shifts the tasks after it down by one |
| Tasks.RemoveAtMultiset | TaskManager/TaskManager/MainForm.cs:343 | removing at a position takes exactly that task out of the multiset |
| Tasks.InsertAt | TaskManager/TaskManager/MainForm.cs:344 | inserting at a position lengthens the list by one, puts the task there, keeps the tasks before it and shifts the tasks after it up by one |
| Tasks.InsertAtMultiset | TaskManager/TaskManager/MainForm.cs:344 | inserting adds exactly the one task to the multiset |
| Tasks.InsertRemoved | TaskManager/TaskManager/MainForm.cs:342-344 | putting a removed task back at its own position restores the list |
| Tasks.Move | TaskManager/TaskManager/MainForm.cs:338-344 | a move keeps the length and the multiset of tasks and puts the moved task at the target; moving a task onto itself changes nothing |
| Tasks.MoveKeepsOthers | TaskManager/TaskManager/MainForm.cs:338-344 | taking the moved task out again leaves the other tasks in their old relative order |
| Tasks.MovePositions | TaskManager/TaskManager/MainForm.cs:338-344 | tasks outside the range between the two positions stay put, and tasks inside it shift by one towards the old position |
| Tasks.MoveKeepsSearch | TaskManager/TaskManager/MainForm.cs:342-345 | a move changes neither the length of the list nor which tasks a query picks out, nor how often |
| Tasks.MoveKeepsFilter | TaskManager/TaskManager/MainForm.cs:342-345 | a filter that agreed with the search text before a move still does (as a multiset), and the visible list stays no longer than the task list |
| Tasks.FilterAgrees | TaskManager/TaskManager/MainForm.cs:256-266 | the filter part of the window's invariant: cleared exactly when the text is blank, otherwise the search result up to order; kept by Tasks.MoveKeepsFilter |
| Tasks.ByTitle | TaskManager/TaskManager/MainForm.cs:310 | the key order `t => t.Title` under the title comparer; Tasks.ByTitlePreorder shows it is a total preorder |
| Tasks.ByDoneThenTitle | TaskManager/TaskManager/MainForm.cs:316 | the key order `OrderByDescending(t => t.IsDone).ThenBy(t => t.Title)`; Tasks.ByDoneThenTitlePreorder shows it is a total preorder |
| Tasks.SortByTitle | TaskManager/TaskManager/MainForm.cs:310 | `OrderBy(t => t.Title)`; its meaning is proved by Tasks.SortByTitleCorrect and Sorting.SortIsTheStableSort |
| Tasks.SortByDone | TaskManager/TaskManager/MainForm.cs:316 | `OrderByDescending(t => t.IsDone).ThenBy(t => t.Title)`; its meaning is proved by Tasks.SortByDoneCorrect and Sorting.SortIsTheStableSort |
| Tasks.ByTitlePreorder | TaskManager/TaskManager/MainForm.cs:310 | ordering tasks by title under a total preorder on titles is a total preorder on tasks |
| Tasks.ByDoneThenTitlePreorder | TaskManager/TaskManager/MainForm.cs:316 | done first, then by title, is a total preorder on tasks |
| Tasks.SortByTitleCorrect | TaskManager/TaskManager/MainForm.cs:310 | sort A-Z yields a permutation with non-decreasing titles in which tasks with equal titles keep their original relative order |
| Tasks.DoneFirstPrefix | TaskManager/TaskManager/MainForm.cs:316 | in a list where no open task precedes a done one, the done tasks are exactly the first `CountDone` positions |
| Tasks.SortByDoneCorrect | TaskManager/TaskManager/MainForm.cs:316 | sort by done yields a permutation in which every done task precedes every open one and titles are non-decreasing within each group; ties keep their order, and the done tasks fill the first `CountDone` positions |
| Form.MainForm.Valid | TaskManager/TaskManager/MainForm.cs:239-268 | what holds between handlers: the filter agrees with the search text, the rows are `filteredTasks ?? tasks`, the label shows their counts and the list is saved; every method keeps it |
| Form.MainForm.VisibleWithinTasks | TaskManager/TaskManager/MainForm.cs:243 | the view only ever shows tasks of the list, never more often than they occur |
| Form.MainForm.constructor | TaskManager/TaskManager/MainForm.cs:68-76 | opening the window on the loaded list gives an empty search box, no filter, all loaded tasks as rows, their stats on the label, and the invariant |
| Form.MainForm.LoadTasks | TaskManager/TaskManager/MainForm.cs:228-232 | the loaded list replaces the tasks and the filter is recomputed for the current search text |
| Form.MainForm.SaveTasks | TaskManager/TaskManager/MainForm.cs:234-237 | the saved list becomes the current list |
| Form.MainForm.RefreshTaskList | TaskManager/TaskManager/MainForm.cs:239-254 | the rows become `filteredTasks ?? tasks`, the label shows their counts and the list is saved |
| Form.MainForm.ApplySearchFilter | TaskManager/TaskManager/MainForm.cs:256-268 | the filter becomes the search result for the current text, and the view is refreshed |
| Form.MainForm.SetSearchText | TaskManager/TaskManager/MainForm.cs:127 | typing a different text recomputes the filter for it; the same text changes nothing |
| Form.MainForm.AddTask | TaskManager/TaskManager/MainForm.cs:270-278 | a blank input changes nothing; otherwise exactly one task, with the untrimmed input as title and not done, is appended and the filter is recomputed |
| Form.MainForm.EditTask | TaskManager/TaskManager/MainForm.cs:280-290 | with no selection or a blank input nothing changes; otherwise only the selected task's title is replaced, untrimmed, and the filter is recomputed |
| Form.MainForm.DeleteTask | TaskManager/TaskManager/MainForm.cs:292-298 | with no selection nothing changes; otherwise exactly the selected task is removed and the filter is recomputed |
| Form.MainForm.ToggleTaskDone | TaskManager/TaskManager/MainForm.cs:300-306 | with no selection nothing changes; otherwise only the selected task's done flag flips and the filter is recomputed |
| Form.MainForm.SortTasksAZ | TaskManager/TaskManager/MainForm.cs:308-312 | the list becomes its stable sort by title and the filter is recomputed |
| Form.MainForm.SortTasksByDone | TaskManager/TaskManager/MainForm.cs:314-318 | the list becomes its stable sort done first, then by title, and the filter is recomputed |
| Form.MainForm.DragDrop | TaskManager/TaskManager/MainForm.cs:331-346 | a drop off the rows or onto the dragged row changes nothing; otherwise the task at the dragged row position of the full list is moved to the target position, and the filter and the search text are kept |
| Form.MainForm.MoveTask | TaskManager/TaskManager/MainForm.cs:338-345 | remove-then-insert is the move of the old position to the new one, followed by a refresh that does not recompute the filter |
| Scenarios.CodePointLePreorder | TaskManager/TaskManager/MainForm.cs:310 | the code-point comparer qualifies as a title comparer |
| Scenarios.StatsExample | TaskManager/TaskManager/MainForm.cs:252 | one open task is labelled `Stats: 1 tasks (0 done)`, and one done task `Stats: 1 tasks (1 done)` |
| Scenarios.SearchExample | TaskManager/TaskManager/MainForm.cs:256-266 | searching " AB " among "c", "ab", "xAB" gives the filter ["ab", "xAB"] |
| Scenarios.MatchesExample | TaskManager/TaskManager/MainForm.cs:265 | "AB" occurs in "ab" and in "xAB" ignoring case, and not in "c" |
| Scenarios.TrimExample | TaskManager/TaskManager/MainForm.cs:264 | " AB " trims to "AB" |
| Scenarios.FilterExample | TaskManager/TaskManager/MainForm.cs:265 | given which of the three titles match, the search keeps "ab" and "xAB" in that order |
| Scenarios.MoveExample | TaskManager/TaskManager/MainForm.cs:342-344 | moving the first of three tasks onto the second swaps them and leaves the third |

## Left out

- Persistence: `TaskManager.cs` reads and writes the list as JSON through Newtonsoft, which is file I/O and a foreign library. `LoadTasks` takes the loaded list as a parameter, and saving is the `saved` field. The model assumes every loaded task and every title is non-null: a task file holding a null entry or a null title deserialises, after which a null entry makes the window throw at `task.Title` in the row loop (:247) as it opens, a null title makes a search throw at `t.Title.IndexOf` (:265), and `Task` cannot represent either.
- Themes and their animation (`DarkTheme.cs`, `LightTheme`, the timer-driven colour fade): styling of controls, with timers and floating-point colour interpolation.
- Column widths and font zoom: floating-point layout and mouse-wheel input.
- `SetupUI`, tool tips and the rendering of list items (the ✔ marker): they hold no list logic.
- `Prompt.ShowDialog`: the text the user enters becomes the `input` parameter of `AddTask` and `EditTask`.
- Hit-testing in drag-and-drop (`PointToClient`, `GetItemAt`) and the drag start and enter handlers: the dragged row and the drop target, or none, are parameters of `DragDrop`.
- Form.MainForm.EditTask: the window changes the selected `TaskItem` object in place. The model replaces the task at the selected position of the list with a new value. The object is shared between the list and the filter, but the filter is recomputed at once, so the resulting state is the same.
- Form.MainForm.ToggleTaskDone: changes the selected task by value, as `EditTask` does.
- Form.MainForm.DeleteTask: the window calls `List.Remove` on the selected object. The model removes at the selected position. Selection is a position in the task list, not a list-view row; for a task that occurs once in the list, this is the same task.
- Text.Fold: only ASCII letters are folded. `OrdinalIgnoreCase` also folds non-ASCII letters.
- Form.MainForm.SortTasksAZ: the culture-sensitive default string comparer is not modelled. The comparer is any total preorder on titles, fixed when the window opens.
- Text.IsWhiteSpace: the .NET whitespace set is written out as a fixed list of characters. There is no Unicode database.
