/** Clients of the main window's contracts: the usage scenarios of the task
    manager, proved from the specifications of `MainForm` alone, with the
    code-point comparer standing in for the title comparer. */
module Scenarios {
  import opened Text
  import opened Tasks
  import opened Form
  import Sorting

  /** The code-point comparer is a total preorder, so it can order titles. */
  lemma CodePointLePreorder()
    ensures Sorting.TotalPreorder(CodePointLe)
  {
    forall a, b ensures CodePointLe(a, b) || CodePointLe(b, a) {
      CodePointLeTotal(a, b);
    }
    forall a, b, c | CodePointLe(a, b) && CodePointLe(b, c) ensures CodePointLe(a, c) {
      CodePointLeTransitive(a, b, c);
    }
  }

  method OpenEmptyList() {
    CodePointLePreorder();
    var form := new MainForm([], CodePointLe);
    assert form.rows == [];
    assert form.statsLabel == "Stats: 0 tasks (0 done)";
    form.AddTask("   ");
    assert form.tasks == [];
  }

  method AddToEmptyList() {
    CodePointLePreorder();
    StatsExample();
    var form := new MainForm([], CodePointLe);
    assert !IsBlank("Buy milk") by { assert !IsWhiteSpace("Buy milk"[0]); }
    form.AddTask("Buy milk");
    assert form.rows == [Task("Buy milk", false)];
    assert form.statsLabel == "Stats: 1 tasks (0 done)";
    assert form.saved == form.tasks;
  }

  /** One task: the label counts it, and counts it done when it is. */
  lemma StatsExample()
    ensures StatsLabel([Task("Buy milk", false)]) == "Stats: 1 tasks (0 done)"
    ensures StatsLabel([Task("Apple", true)]) == "Stats: 1 tasks (1 done)"
  {
    assert CountDone([Task("Buy milk", false)]) == 0;
    assert CountDone([Task("Apple", true)]) == 1;
    assert NatToString(1) == "1" && NatToString(0) == "0";
  }

  method SortTwoTasks() {
    CodePointLePreorder();
    var form := new MainForm([Task("Zebra", false), Task("Apple", false)], CodePointLe);
    form.SortTasksAZ();
    assert form.tasks == [Task("Apple", false), Task("Zebra", false)];
  }

  method ToggleOneTask() {
    CodePointLePreorder();
    StatsExample();
    var form := new MainForm([Task("Apple", false)], CodePointLe);
    form.ToggleTaskDone(None);
    assert form.tasks == [Task("Apple", false)];
    form.ToggleTaskDone(Some(0));
    assert form.tasks == [Task("Apple", true)];
    assert form.saved == [Task("Apple", true)];
    assert form.statsLabel == "Stats: 1 tasks (1 done)";
  }

  /** Searching " AB " trims the text and matches "ab" and "xAB" but not "c". */
  lemma SearchExample()
    ensures SearchFilter([Task("c", false), Task("ab", false), Task("xAB", false)], " AB ")
      == Some([Task("ab", false), Task("xAB", false)])
  {
    assert !IsBlank(" AB ") by { assert !IsWhiteSpace(" AB "[1]); }
    TrimExample();
    MatchesExample();
    FilterExample();
  }

  /** "AB" occurs in "ab" and in "xAB" ignoring case, and not in "c". */
  lemma MatchesExample()
    ensures Matches(Task("ab", false), "AB")
    ensures !Matches(Task("c", false), "AB")
    ensures Matches(Task("xAB", false), "AB")
  {
    assert MatchesAt("ab", "AB", 0) by { assert Fold('a') == 'A' && Fold('b') == 'B'; }
    ContainsIgnoreCaseMeans("ab", "AB");
    ContainsIgnoreCaseMeans("c", "AB");
    assert MatchesAt("xAB", "AB", 1) by { assert Fold('A') == 'A' && Fold('B') == 'B'; }
    ContainsIgnoreCaseMeans("xAB", "AB");
  }

  lemma TrimExample()
    ensures Trim(" AB ") == "AB"
  {
    var text := " AB ";
    assert TrimStart(text[1..]) == "AB ";
    assert TrimStart(text) == "AB ";
    assert TrimEnd("AB "[..2]) == "AB";
  }

  lemma FilterExample()
    requires Matches(Task("ab", false), "AB") && !Matches(Task("c", false), "AB") && Matches(Task("xAB", false), "AB")
    ensures Filter([Task("c", false), Task("ab", false), Task("xAB", false)], "AB") == [Task("ab", false), Task("xAB", false)]
  {
    var ab, c, xab := Task("ab", false), Task("c", false), Task("xAB", false);
    assert [xab][1..] == [];
    assert [ab, xab][1..] == [xab];
    assert [c, ab, xab][1..] == [ab, xab];
  }

  /** Dragging the first row onto the second moves the first task of the
      full list behind the second. */
  lemma MoveExample<T>(a: T, b: T, c: T)
    ensures Move([a, b, c], 0, 1) == [b, a, c]
  {
    var s := [a, b, c];
    var r := Move(s, 0, 1);
    MovePositions(s, 0, 1, 0);
    MovePositions(s, 0, 1, 2);
    assert r[0] == b && r[1] == a && r[2] == c;
  }

  /** A search over [c, ab, xAB] shows the rows [ab, xAB]. Dragging row 0
      onto row 1 then moves the task at position 0 of the full list, the
      hidden "c", not the dragged "ab", and the shown rows stay as they were. */
  method SearchThenDrag() {
    var ab, c, xab := Task("ab", false), Task("c", false), Task("xAB", false);
    SearchExample();
    MoveExample(c, ab, xab);
    CodePointLePreorder();
    var form := new MainForm([c, ab, xab], CodePointLe);
    form.SetSearchText(" AB ");
    assert form.rows == [ab, xab];
    assert form.tasks[0] != form.rows[0];
    form.DragDrop(0, Some(1));
    assert form.tasks == [ab, c, xab];
    assert form.rows == [ab, xab];
  }
}
