/** The task-list state of the main window and the operations its buttons,
    its search box and drag-and-drop perform on it. Every operation that
    changes the list ends, as in the window, by recomputing the search filter
    and refreshing the view, which redraws the rows, rewrites the stats label
    and saves the list; drag-reorder refreshes without recomputing the
    filter. */
module Form {
  import opened Text
  import opened Tasks
  import Sorting

  class MainForm {
    /** The task list, in the order the user sees when nothing is filtered. */
    var tasks: seq<Task>
    /** The search result; None when the search box is blank. */
    var filteredTasks: Option<seq<Task>>
    /** The text of the search box. */
    var searchText: string
    /** The rows of the list view, one per shown task, in display order. */
    var rows: seq<Task>
    /** The text of the stats label. */
    var statsLabel: string
    /** The list as last written to the task file. */
    var saved: seq<Task>
    /** The comparer `OrderBy` uses on titles. */
    const titleLe: (string, string) -> bool

    /** What holds between operations. The filter is cleared exactly when
        the search text is blank; otherwise it holds the tasks the trimmed
        text matches, although after a drag-reorder possibly in their old
        order. The view, the label and the saved list are up to date. */
    ghost predicate Valid()
      reads this
    {
      && Sorting.TotalPreorder(titleLe)
      && FilterAgrees(tasks, filteredTasks, searchText)
      && rows == Visible(tasks, filteredTasks)
      && |rows| <= |tasks|
      && statsLabel == StatsLabel(rows)
      && saved == tasks
    }

    /** The view only ever shows tasks of the list. */
    lemma VisibleWithinTasks()
      requires Valid()
      ensures multiset(rows) <= multiset(tasks)
    {
      if filteredTasks.Some? {
        FilterSubMultiset(tasks, Trim(searchText));
      }
    }

    /** Opens the window on the loaded list with an empty search box. */
    constructor (loaded: seq<Task>, titleLe: (string, string) -> bool)
      requires Sorting.TotalPreorder(titleLe)
      ensures Valid()
      ensures this.titleLe == titleLe
      ensures tasks == loaded && searchText == "" && filteredTasks == None
      ensures rows == loaded && statsLabel == StatsLabel(loaded)
    {
      this.titleLe := titleLe;
      tasks := [];
      filteredTasks := None;
      searchText := "";
      rows := [];
      statsLabel := "Stats: 0 tasks (0 done)";
      saved := loaded;
      new;
      LoadTasks(loaded);
      RefreshTaskList();
    }

    /** Takes over the list read from the task file. */
    method LoadTasks(loaded: seq<Task>)
      requires Sorting.TotalPreorder(titleLe)
      modifies this
      ensures Valid()
      ensures tasks == loaded && searchText == old(searchText)
      ensures filteredTasks == SearchFilter(tasks, searchText)
    {
      tasks := loaded;
      ApplySearchFilter();
    }

    /** Records the list as the content of the task file. */
    method SaveTasks()
      modifies this`saved
      ensures saved == tasks
    {
      saved := tasks;
    }

    /** Redraws the rows from the shown list, rewrites the label and saves. */
    method RefreshTaskList()
      modifies this`rows, this`statsLabel, this`saved
      ensures rows == Visible(tasks, filteredTasks)
      ensures statsLabel == StatsLabel(rows)
      ensures saved == tasks
    {
      var listToShow := Visible(tasks, filteredTasks);
      rows := listToShow;
      statsLabel := StatsLabel(listToShow);
      SaveTasks();
    }

    /** Recomputes the filter from the search text, then refreshes. */
    method ApplySearchFilter()
      requires Sorting.TotalPreorder(titleLe)
      modifies this
      ensures Valid()
      ensures tasks == old(tasks) && searchText == old(searchText)
      ensures filteredTasks == SearchFilter(tasks, searchText)
    {
      if IsBlank(searchText) {
        filteredTasks := None;
      } else {
        var query := Trim(searchText);
        filteredTasks := Some(Filter(tasks, query));
      }
      RefreshTaskList();
    }

    /** The search box's text changes; the box reports only real changes. */
    method SetSearchText(text: string)
      requires Valid()
      modifies this
      ensures Valid()
      ensures searchText == text && tasks == old(tasks)
      ensures text == old(searchText) ==> unchanged(this)
      ensures text != old(searchText) ==> filteredTasks == SearchFilter(tasks, text)
    {
      if text != searchText {
        searchText := text;
        ApplySearchFilter();
      }
    }

    /** Add: a non-blank input is appended, untrimmed and not done. */
    method AddTask(input: string)
      requires Valid()
      modifies this
      ensures Valid()
      ensures IsBlank(input) ==> unchanged(this)
      ensures !IsBlank(input) ==>
        && tasks == old(tasks) + [Task(input, false)]
        && searchText == old(searchText)
        && filteredTasks == SearchFilter(tasks, searchText)
    {
      if !IsBlank(input) {
        tasks := tasks + [Task(input, false)];
        ApplySearchFilter();
      }
    }

    /** Edit: the selected task gets the input, untrimmed, as its title.
        Nothing happens without a selection or with a blank input. */
    method EditTask(selected: Option<nat>, input: string)
      requires Valid()
      requires selected.Some? ==> selected.value < |tasks|
      modifies this
      ensures Valid()
      ensures selected.None? || IsBlank(input) ==> unchanged(this)
      ensures selected.Some? && !IsBlank(input) ==>
        && tasks == old(tasks)[selected.value := old(tasks)[selected.value].(title := input)]
        && searchText == old(searchText)
        && filteredTasks == SearchFilter(tasks, searchText)
    {
      if selected.None? {
        return;
      }
      var i := selected.value;
      if !IsBlank(input) {
        tasks := tasks[i := tasks[i].(title := input)];
        ApplySearchFilter();
      }
    }

    /** Delete: the selected task is removed; nothing happens without one. */
    method DeleteTask(selected: Option<nat>)
      requires Valid()
      requires selected.Some? ==> selected.value < |tasks|
      modifies this
      ensures Valid()
      ensures selected.None? ==> unchanged(this)
      ensures selected.Some? ==>
        && tasks == RemoveAt(old(tasks), selected.value)
        && searchText == old(searchText)
        && filteredTasks == SearchFilter(tasks, searchText)
    {
      if selected.None? {
        return;
      }
      tasks := RemoveAt(tasks, selected.value);
      ApplySearchFilter();
    }

    /** Toggle done: the selected task's done flag flips; nothing happens
        without a selection. */
    method ToggleTaskDone(selected: Option<nat>)
      requires Valid()
      requires selected.Some? ==> selected.value < |tasks|
      modifies this
      ensures Valid()
      ensures selected.None? ==> unchanged(this)
      ensures selected.Some? ==>
        && tasks == old(tasks)[selected.value := old(tasks)[selected.value].(isDone := !old(tasks)[selected.value].isDone)]
        && searchText == old(searchText)
        && filteredTasks == SearchFilter(tasks, searchText)
    {
      if selected.None? {
        return;
      }
      var i := selected.value;
      tasks := tasks[i := tasks[i].(isDone := !tasks[i].isDone)];
      ApplySearchFilter();
    }

    /** Sort A-Z: the list is replaced by its stable sort by title. */
    method SortTasksAZ()
      requires Valid()
      modifies this
      ensures Valid()
      ensures tasks == SortByTitle(old(tasks), titleLe)
      ensures searchText == old(searchText)
      ensures filteredTasks == SearchFilter(tasks, searchText)
    {
      tasks := SortByTitle(tasks, titleLe);
      ApplySearchFilter();
    }

    /** Sort by done: done tasks first, each group by title, stably. */
    method SortTasksByDone()
      requires Valid()
      modifies this
      ensures Valid()
      ensures tasks == SortByDone(old(tasks), titleLe)
      ensures searchText == old(searchText)
      ensures filteredTasks == SearchFilter(tasks, searchText)
    {
      tasks := SortByDone(tasks, titleLe);
      ApplySearchFilter();
    }

    /** Drag-and-drop of the row at `dragged` onto the row at `dropTarget`
        (None when dropped off the rows). The row indices are applied to the
        full list, the filter is kept as it was, and the view is refreshed. */
    method DragDrop(dragged: nat, dropTarget: Option<nat>)
      requires Valid()
      requires dragged < |rows|
      requires dropTarget.Some? ==> dropTarget.value < |rows|
      modifies this
      ensures Valid()
      ensures dropTarget.None? || dropTarget.value == dragged ==> unchanged(this)
      ensures dropTarget.Some? ==>
        && tasks == Move(old(tasks), dragged, dropTarget.value)
        && searchText == old(searchText)
        && filteredTasks == old(filteredTasks)
    {
      if dropTarget.None? {
        return;
      }
      var oldIndex := dragged;
      var newIndex := dropTarget.value;
      if oldIndex == newIndex {
        return;
      }
      MoveTask(oldIndex, newIndex);
    }

    /** The reorder itself: the task at `oldIndex` is removed and inserted
        again at `newIndex`; the filter is not recomputed. */
    method MoveTask(oldIndex: nat, newIndex: nat)
      requires Valid()
      requires oldIndex < |rows| && newIndex < |rows|
      modifies this
      ensures Valid()
      ensures tasks == Move(old(tasks), oldIndex, newIndex)
      ensures searchText == old(searchText) && filteredTasks == old(filteredTasks)
    {
      var list := tasks;
      var movedItem := list[oldIndex];
      list := RemoveAt(list, oldIndex);
      list := InsertAt(list, newIndex, movedItem);
      assert list == Move(tasks, oldIndex, newIndex);
      MoveKeepsFilter(tasks, filteredTasks, searchText, oldIndex, newIndex);
      tasks := list;
      RefreshTaskList();
    }
  }
}
