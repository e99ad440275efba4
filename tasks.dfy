/** The task list as values: a task, the search filter, the done count,
    the list edits behind drag-reorder and the two sort orders of the form. */
module Tasks {
  import opened Text
  import Sorting

  datatype Option<T> = None | Some(value: T)

  /** A `TaskItem`: its title and whether it is done. */
  datatype Task = Task(title: string, isDone: bool)

  /** The search predicate: the title contains the query, ignoring case. */
  predicate Matches(t: Task, query: string) {
    ContainsIgnoreCase(t.title, query)
  }

  /** `tasks.Where(t => Matches(t, query)).ToList()`. */
  function Filter(tasks: seq<Task>, query: string): (r: seq<Task>)
    ensures |r| <= |tasks|
  {
    if |tasks| == 0 then []
    else (if Matches(tasks[0], query) then [tasks[0]] else []) + Filter(tasks[1..], query)
  }

  /** Filter only keeps tasks of the list that match. */
  lemma {:induction false} FilterSound(tasks: seq<Task>, query: string)
    ensures forall t :: t in Filter(tasks, query) ==> t in tasks && Matches(t, query)
  {
    if |tasks| > 0 {
      FilterSound(tasks[1..], query);
      assert tasks == [tasks[0]] + tasks[1..];
    }
  }

  ghost predicate StrictlyIncreasing(idx: seq<nat>) {
    forall a, b :: 0 <= a < b < |idx| ==> idx[a] < idx[b]
  }

  /** idx lists ascending positions of tasks, and f is tasks read at them. */
  ghost predicate PicksAt(tasks: seq<Task>, f: seq<Task>, idx: seq<nat>) {
    && StrictlyIncreasing(idx)
    && |idx| == |f|
    && forall k :: 0 <= k < |idx| ==> idx[k] < |tasks| && f[k] == tasks[idx[k]]
  }

  /** Filter keeps exactly the matching tasks, in their order: its result is
      tasks read at the ascending positions of the matching tasks. */
  lemma {:induction false} FilterIsSubsequence(tasks: seq<Task>, query: string) returns (idx: seq<nat>)
    ensures PicksAt(tasks, Filter(tasks, query), idx)
    ensures forall i :: 0 <= i < |tasks| ==> (i in idx <==> Matches(tasks[i], query))
  {
    if |tasks| == 0 {
      idx := [];
    } else {
      var rest := FilterIsSubsequence(tasks[1..], query);
      var shifted := ShiftPositions(tasks, query, rest);
      if Matches(tasks[0], query) {
        idx := [0] + shifted;
        PrependFirst(tasks, query, shifted);
        forall i | 0 <= i < |tasks| ensures i in idx <==> Matches(tasks[i], query) {
          assert i in idx <==> i == 0 || i in shifted;
        }
      } else {
        idx := shifted;
        assert Filter(tasks, query) == Filter(tasks[1..], query);
      }
    }
  }

  /** Positions in tasks[1..] become positions in tasks. */
  lemma ShiftPositions(tasks: seq<Task>, query: string, rest: seq<nat>) returns (shifted: seq<nat>)
    requires |tasks| > 0
    requires PicksAt(tasks[1..], Filter(tasks[1..], query), rest)
    requires forall i :: 0 <= i < |tasks| - 1 ==> (i in rest <==> Matches(tasks[1..][i], query))
    ensures PicksAt(tasks, Filter(tasks[1..], query), shifted)
    ensures forall k :: 0 <= k < |shifted| ==> 0 < shifted[k]
    ensures forall i :: 0 <= i < |tasks| ==> (i in shifted <==> 0 < i && Matches(tasks[i], query))
  {
    shifted := seq(|rest|, k requires 0 <= k < |rest| => rest[k] + 1);
    ShiftPicks(tasks, Filter(tasks[1..], query), rest, shifted);
    ShiftMembers(tasks, query, rest, shifted);
  }

  /** shifted is rest with every position one higher. */
  ghost predicate IsShifted(rest: seq<nat>, shifted: seq<nat>) {
    |shifted| == |rest| && forall k :: 0 <= k < |rest| ==> shifted[k] == rest[k] + 1
  }

  lemma ShiftPicks(tasks: seq<Task>, fr: seq<Task>, rest: seq<nat>, shifted: seq<nat>)
    requires |tasks| > 0
    requires PicksAt(tasks[1..], fr, rest)
    requires IsShifted(rest, shifted)
    ensures PicksAt(tasks, fr, shifted)
  {
    forall k | 0 <= k < |shifted| ensures shifted[k] < |tasks| && fr[k] == tasks[shifted[k]] {
      assert fr[k] == tasks[1..][rest[k]];
    }
    forall a, b | 0 <= a < b < |shifted| ensures shifted[a] < shifted[b] {
      assert rest[a] < rest[b];
    }
  }

  lemma ShiftMembers(tasks: seq<Task>, query: string, rest: seq<nat>, shifted: seq<nat>)
    requires |tasks| > 0
    requires forall i :: 0 <= i < |tasks| - 1 ==> (i in rest <==> Matches(tasks[1..][i], query))
    requires IsShifted(rest, shifted)
    ensures forall i :: 0 <= i < |tasks| ==> (i in shifted <==> 0 < i && Matches(tasks[i], query))
  {
    forall i | 0 <= i < |tasks| ensures i in shifted <==> 0 < i && Matches(tasks[i], query) {
      if i in shifted {
        var k :| 0 <= k < |shifted| && shifted[k] == i;
        assert rest[k] in rest;
      }
      if i > 0 {
        if i - 1 in rest {
          var k :| 0 <= k < |rest| && rest[k] == i - 1;
          assert shifted[k] == i;
        }
        assert tasks[1..][i - 1] == tasks[i];
      }
    }
  }

  /** A matching first task is picked at position 0. */
  lemma PrependFirst(tasks: seq<Task>, query: string, shifted: seq<nat>)
    requires |tasks| > 0 && Matches(tasks[0], query)
    requires PicksAt(tasks, Filter(tasks[1..], query), shifted)
    requires forall k :: 0 <= k < |shifted| ==> 0 < shifted[k]
    ensures PicksAt(tasks, Filter(tasks, query), [0] + shifted)
  {
    var idx := [0] + shifted;
    var fr := Filter(tasks[1..], query);
    var f := Filter(tasks, query);
    assert f == [tasks[0]] + fr;
    forall k | 1 <= k < |idx| ensures idx[k] == shifted[k - 1] && f[k] == tasks[idx[k]] {
      PrependAt(0, shifted, k);
      PrependAt(tasks[0], fr, k);
    }
    assert StrictlyIncreasing(idx) by {
      forall a, b | 0 <= a < b < |idx| ensures idx[a] < idx[b] {
        if a > 0 {
          assert idx[a] == shifted[a - 1];
        }
      }
    }
  }

  lemma PrependAt<T>(x: T, s: seq<T>, k: nat)
    requires 1 <= k <= |s|
    ensures ([x] + s)[k] == s[k - 1]
  {
  }

  /** How often each task occurs in Filter's result: as often as in tasks
      when it matches, never otherwise. */
  lemma {:induction false} FilterMultiset(tasks: seq<Task>, query: string, t: Task)
    ensures multiset(Filter(tasks, query))[t] == if Matches(t, query) then multiset(tasks)[t] else 0
  {
    if |tasks| > 0 {
      var h, rest := tasks[0], tasks[1..];
      var head := if Matches(h, query) then [h] else [];
      FilterMultiset(rest, query, t);
      assert tasks == [h] + rest;
      assert Filter(tasks, query) == head + Filter(rest, query);
      assert multiset(Filter(tasks, query))[t] == multiset(head)[t] + multiset(Filter(rest, query))[t];
      assert multiset(tasks)[t] == multiset([h])[t] + multiset(rest)[t];
    }
  }

  /** Filtering two permutations of one list gives permutations of one list. */
  lemma FilterPermutation(s: seq<Task>, t: seq<Task>, query: string)
    requires multiset(s) == multiset(t)
    ensures multiset(Filter(s, query)) == multiset(Filter(t, query))
  {
    forall x ensures multiset(Filter(s, query))[x] == multiset(Filter(t, query))[x] {
      FilterMultiset(s, query, x);
      FilterMultiset(t, query, x);
    }
  }

  /** Filter only drops tasks. */
  lemma FilterSubMultiset(tasks: seq<Task>, query: string)
    ensures multiset(Filter(tasks, query)) <= multiset(tasks)
  {
    forall x ensures multiset(Filter(tasks, query))[x] <= multiset(tasks)[x] {
      FilterMultiset(tasks, query, x);
    }
  }

  /** `ApplySearchFilter`: a blank search text clears the filter; otherwise
      the filter is the trimmed text applied to the tasks. */
  function SearchFilter(tasks: seq<Task>, text: string): (r: Option<seq<Task>>)
    ensures r.None? <==> IsBlank(text)
    ensures r.Some? ==> Trim(text) != [] && r.value == Filter(tasks, Trim(text))
  {
    if IsBlank(text) then None else Some(Filter(tasks, Trim(text)))
  }

  /** A search only ever keeps tasks of the list whose title contains the
      trimmed text, ignoring case, and never more often than they occur. */
  lemma SearchFilterKeeps(tasks: seq<Task>, text: string)
    ensures var r := SearchFilter(tasks, text);
      r.Some? ==>
        && multiset(r.value) <= multiset(tasks)
        && forall t :: t in r.value ==> t in tasks && ContainsIgnoreCase(t.title, Trim(text))
  {
    FilterSubMultiset(tasks, Trim(text));
    FilterSound(tasks, Trim(text));
  }

  /** `filteredTasks ?? tasks`: what the list view shows. */
  function Visible(tasks: seq<Task>, filtered: Option<seq<Task>>): seq<Task> {
    if filtered.Some? then filtered.value else tasks
  }

  /** The visible list after a search: the whole list for a blank text,
      otherwise the order-preserving subsequence of the tasks whose title
      contains the trimmed text, case-insensitively. */
  lemma SearchVisible(tasks: seq<Task>, text: string) returns (idx: seq<nat>)
    ensures IsBlank(text) ==> Visible(tasks, SearchFilter(tasks, text)) == tasks
    ensures !IsBlank(text) ==>
      var v := Visible(tasks, SearchFilter(tasks, text));
      && PicksAt(tasks, v, idx)
      && (forall i :: 0 <= i < |tasks| ==> (i in idx <==> ContainsIgnoreCase(tasks[i].title, Trim(text))))
  {
    idx := FilterIsSubsequence(tasks, Trim(text));
  }

  // Counting done tasks: `Count(t => t.IsDone)`.

  function CountDone(s: seq<Task>): (n: nat)
    ensures n <= |s|
  {
    if |s| == 0 then 0 else (if s[0].isDone then 1 else 0) + CountDone(s[1..])
  }

  /** The count is zero exactly when no task is done, and the length exactly
      when all are. */
  lemma {:induction false} CountDoneExtremes(s: seq<Task>)
    ensures CountDone(s) == 0 <==> forall i :: 0 <= i < |s| ==> !s[i].isDone
    ensures CountDone(s) == |s| <==> forall i :: 0 <= i < |s| ==> s[i].isDone
  {
    if |s| > 0 {
      CountDoneExtremes(s[1..]);
      assert forall i :: 1 <= i < |s| ==> s[i] == s[1..][i - 1];
    }
  }

  lemma {:induction false} CountDoneConcat(a: seq<Task>, b: seq<Task>)
    ensures CountDone(a + b) == CountDone(a) + CountDone(b)
  {
    if |a| > 0 {
      assert (a + b)[1..] == a[1..] + b;
      CountDoneConcat(a[1..], b);
    } else {
      assert a + b == b;
    }
  }

  /** The done count does not depend on the order of the tasks. */
  lemma {:induction false} CountDonePermutation(s: seq<Task>, t: seq<Task>)
    requires multiset(s) == multiset(t)
    ensures CountDone(s) == CountDone(t)
  {
    if |s| > 0 {
      var h := s[0];
      assert s == [h] + s[1..];
      assert h in multiset(t);
      var k :| 0 <= k < |t| && t[k] == h;
      var t' := RemoveAt(t, k);
      RemoveAtMultiset(t, k);
      assert multiset(s[1..]) == multiset(t');
      CountDonePermutation(s[1..], t');
      CountDoneRemoveAt(t, k);
    } else {
      assert |t| == |multiset(t)|;
    }
  }

  lemma RemoveAtMultiset<T>(s: seq<T>, k: nat)
    requires k < |s|
    ensures multiset(RemoveAt(s, k)) == multiset(s) - multiset{s[k]}
  {
    assert s == s[..k] + [s[k]] + s[k + 1..];
    assert multiset(s) == multiset(s[..k]) + multiset{s[k]} + multiset(s[k + 1..]);
  }

  lemma InsertAtMultiset<T>(s: seq<T>, i: nat, x: T)
    requires i <= |s|
    ensures multiset(InsertAt(s, i, x)) == multiset(s) + multiset{x}
  {
    assert s == s[..i] + s[i..];
  }

  lemma {:induction false} CountDoneRemoveAt(s: seq<Task>, k: nat)
    requires k < |s|
    ensures CountDone(s) == CountDone(RemoveAt(s, k)) + (if s[k].isDone then 1 else 0)
  {
    if k == 0 {
      assert RemoveAt(s, 0) == s[1..];
    } else {
      var h, t := s[0], s[1..];
      assert RemoveAt(s, k) == [h] + RemoveAt(t, k - 1);
      assert ([h] + RemoveAt(t, k - 1))[1..] == RemoveAt(t, k - 1);
      CountDoneRemoveAt(t, k - 1);
    }
  }

  /** The stats label of a visible list, as `RefreshTaskList` writes it. */
  function StatsLabel(visible: seq<Task>): string {
    "Stats: " + NatToString(|visible|) + " tasks (" + NatToString(CountDone(visible)) + " done)"
  }

  /** The label shows, in decimal, the number of visible tasks and the number
      of them that are done, and the second never exceeds the first. */
  lemma StatsLabelShows(visible: seq<Task>) returns (total: string, done: string)
    ensures StatsLabel(visible) == "Stats: " + total + " tasks (" + done + " done)"
    ensures forall i :: 0 <= i < |total| ==> IsDigit(total[i])
    ensures forall i :: 0 <= i < |done| ==> IsDigit(done[i])
    ensures ParseDecimal(total) == |visible|
    ensures ParseDecimal(done) == CountDone(visible) <= |visible|
  {
    total, done := NatToString(|visible|), NatToString(CountDone(visible));
    ParseNatToString(|visible|);
    ParseNatToString(CountDone(visible));
  }

  // The list edits of drag-reorder: `List.RemoveAt` and `List.Insert`.

  function RemoveAt<T>(s: seq<T>, i: nat): (r: seq<T>)
    requires i < |s|
    ensures |r| == |s| - 1
    ensures forall k :: 0 <= k < i ==> r[k] == s[k]
    ensures forall k :: i <= k < |r| ==> r[k] == s[k + 1]
  {
    s[..i] + s[i + 1..]
  }

  function InsertAt<T>(s: seq<T>, i: nat, x: T): (r: seq<T>)
    requires i <= |s|
    ensures |r| == |s| + 1 && r[i] == x
    ensures forall k :: 0 <= k < i ==> r[k] == s[k]
    ensures forall k :: i < k < |r| ==> r[k] == s[k - 1]
  {
    s[..i] + [x] + s[i..]
  }

  /** The task at `from` taken out and put back at `to`: the length and the
      tasks are kept and the moved task lands at `to`. */
  function Move<T>(s: seq<T>, from: nat, to: nat): (r: seq<T>)
    requires from < |s| && to < |s|
    ensures |r| == |s| && r[to] == s[from]
    ensures multiset(r) == multiset(s)
    ensures from == to ==> r == s
  {
    var x := s[from];
    var rest := RemoveAt(s, from);
    RemoveAtMultiset(s, from);
    InsertAtMultiset(rest, to, x);
    assert x in multiset(s);
    InsertRemoved(s, from);
    InsertAt(rest, to, x)
  }

  /** Putting a removed element back where it was restores the sequence. */
  lemma InsertRemoved<T>(s: seq<T>, i: nat)
    requires i < |s|
    ensures InsertAt(RemoveAt(s, i), i, s[i]) == s
  {
    var rest := RemoveAt(s, i);
    assert rest[..i] == s[..i] && rest[i..] == s[i + 1..];
    assert s == s[..i] + [s[i]] + s[i + 1..];
  }

  /** Taking the moved task out again leaves the other tasks in their old
      order. */
  lemma MoveKeepsOthers<T>(s: seq<T>, from: nat, to: nat)
    requires from < |s| && to < |s|
    ensures RemoveAt(Move(s, from, to), to) == RemoveAt(s, from)
  {
    var rest := RemoveAt(s, from);
    var r := InsertAt(rest, to, s[from]);
    assert r == Move(s, from, to);
    assert RemoveAt(r, to) == rest;
  }

  /** A move changes neither the length of the list nor which tasks, and how
      many of each, a query picks out of it. */
  lemma MoveKeepsSearch(s: seq<Task>, from: nat, to: nat, query: string)
    requires from < |s| && to < |s|
    ensures |Move(s, from, to)| == |s|
    ensures multiset(Filter(Move(s, from, to), query)) == multiset(Filter(s, query))
  {
    FilterPermutation(Move(s, from, to), s, query);
  }

  /** A kept filter still agrees with the search text after a move: it is
      cleared exactly when the text is blank, and otherwise holds the tasks
      the trimmed text picks out, in some order; there are still no more of
      them than tasks. */
  ghost predicate FilterAgrees(tasks: seq<Task>, filtered: Option<seq<Task>>, text: string) {
    && (filtered.None? <==> IsBlank(text))
    && (filtered.Some? ==> multiset(filtered.value) == multiset(Filter(tasks, Trim(text))))
  }

  lemma MoveKeepsFilter(s: seq<Task>, filtered: Option<seq<Task>>, text: string, from: nat, to: nat)
    requires from < |s| && to < |s|
    requires FilterAgrees(s, filtered, text)
    ensures FilterAgrees(Move(s, from, to), filtered, text)
    ensures |Visible(Move(s, from, to), filtered)| <= |s|
  {
    MoveKeepsSearch(s, from, to, Trim(text));
    if filtered.Some? {
      var f := Filter(Move(s, from, to), Trim(text));
      assert |filtered.value| == |multiset(filtered.value)| == |multiset(f)| == |f|;
    }
  }

  /** Where every task ends up after a move: those outside the range between
      the two positions stay put, those inside shift by one towards `from`. */
  lemma MovePositions<T>(s: seq<T>, from: nat, to: nat, k: nat)
    requires from < |s| && to < |s| && k < |s|
    ensures var r := Move(s, from, to);
      && (k < from && k < to ==> r[k] == s[k])
      && (k > from && k > to ==> r[k] == s[k])
      && (from < to && from <= k < to ==> r[k] == s[k + 1])
      && (to < from && to < k <= from ==> r[k] == s[k - 1])
  {
  }

  // The two sort orders.

  /** `OrderBy(t => t.Title)` with the given title comparer. */
  function ByTitle(le: (string, string) -> bool): (Task, Task) -> bool {
    (a: Task, b: Task) => le(a.title, b.title)
  }

  /** `OrderByDescending(t => t.IsDone).ThenBy(t => t.Title)`: done tasks
      first, then by title. */
  function ByDoneThenTitle(le: (string, string) -> bool): (Task, Task) -> bool {
    (a: Task, b: Task) => if a.isDone != b.isDone then a.isDone else le(a.title, b.title)
  }

  lemma ByTitlePreorder(le: (string, string) -> bool)
    requires Sorting.TotalPreorder(le)
    ensures Sorting.TotalPreorder(ByTitle(le))
  {
    var o := ByTitle(le);
    forall a: Task, b: Task, c: Task | o(a, b) && o(b, c) ensures o(a, c) {
      assert le(a.title, b.title) && le(b.title, c.title);
    }
    forall a: Task, b: Task ensures o(a, b) || o(b, a) {
      assert le(a.title, b.title) || le(b.title, a.title);
    }
  }

  lemma ByDoneThenTitlePreorder(le: (string, string) -> bool)
    requires Sorting.TotalPreorder(le)
    ensures Sorting.TotalPreorder(ByDoneThenTitle(le))
  {
    var o := ByDoneThenTitle(le);
    forall a: Task, b: Task, c: Task | o(a, b) && o(b, c) ensures o(a, c) {
      if a.isDone == b.isDone == c.isDone {
        assert le(a.title, b.title) && le(b.title, c.title);
      }
    }
    forall a: Task, b: Task ensures o(a, b) || o(b, a) {
      assert le(a.title, b.title) || le(b.title, a.title);
    }
  }

  function SortByTitle(tasks: seq<Task>, le: (string, string) -> bool): seq<Task> {
    Sorting.Sort(tasks, ByTitle(le))
  }

  function SortByDone(tasks: seq<Task>, le: (string, string) -> bool): seq<Task> {
    Sorting.Sort(tasks, ByDoneThenTitle(le))
  }

  /** Sort A-Z: a permutation with non-decreasing titles, in which tasks
      whose titles compare equal keep their original relative order. */
  lemma SortByTitleCorrect(tasks: seq<Task>, le: (string, string) -> bool)
    requires Sorting.TotalPreorder(le)
    ensures var r := SortByTitle(tasks, le);
      && multiset(r) == multiset(tasks)
      && (forall i, j :: 0 <= i < j < |r| ==> le(r[i].title, r[j].title))
      && (forall y :: Sorting.RankClass(r, ByTitle(le), y) == Sorting.RankClass(tasks, ByTitle(le), y))
  {
    ByTitlePreorder(le);
    var r := SortByTitle(tasks, le);
    Sorting.SortSorted(tasks, ByTitle(le));
    assert forall i, j :: 0 <= i < j < |r| ==> ByTitle(le)(r[i], r[j]);
    forall y ensures Sorting.RankClass(r, ByTitle(le), y) == Sorting.RankClass(tasks, ByTitle(le), y) {
      Sorting.SortStable(tasks, ByTitle(le), y);
    }
  }

  /** A list in which no task that is not done precedes a done one has its
      done tasks exactly in the first CountDone positions. */
  lemma {:induction false} DoneFirstPrefix(s: seq<Task>)
    requires forall i, j :: 0 <= i < j < |s| && s[j].isDone ==> s[i].isDone
    ensures forall i :: 0 <= i < |s| ==> (s[i].isDone <==> i < CountDone(s))
  {
    if |s| > 0 {
      if s[0].isDone {
        DoneFirstPrefix(s[1..]);
        assert forall i :: 1 <= i < |s| ==> s[i] == s[1..][i - 1];
      } else {
        assert forall i :: 0 <= i < |s| ==> !s[i].isDone;
        CountDoneExtremes(s);
      }
    }
  }

  /** Sort by done: a permutation in which every done task precedes every
      task that is not done, titles are non-decreasing within each group,
      tasks with the same status and equal titles keep their relative order,
      and the done tasks fill exactly the first CountDone positions. */
  lemma SortByDoneCorrect(tasks: seq<Task>, le: (string, string) -> bool)
    requires Sorting.TotalPreorder(le)
    ensures var r := SortByDone(tasks, le);
      && multiset(r) == multiset(tasks)
      && (forall i, j :: 0 <= i < j < |r| && r[j].isDone ==> r[i].isDone)
      && (forall i, j :: 0 <= i < j < |r| && r[i].isDone == r[j].isDone ==> le(r[i].title, r[j].title))
      && (forall y :: Sorting.RankClass(r, ByDoneThenTitle(le), y) == Sorting.RankClass(tasks, ByDoneThenTitle(le), y))
      && (forall i :: 0 <= i < |r| ==> (r[i].isDone <==> i < CountDone(tasks)))
  {
    ByDoneThenTitlePreorder(le);
    var o := ByDoneThenTitle(le);
    var r := SortByDone(tasks, le);
    Sorting.SortSorted(tasks, o);
    assert forall i, j :: 0 <= i < j < |r| ==> o(r[i], r[j]);
    forall y ensures Sorting.RankClass(r, o, y) == Sorting.RankClass(tasks, o, y) {
      Sorting.SortStable(tasks, o, y);
    }
    DoneFirstPrefix(r);
    CountDonePermutation(r, tasks);
  }
}
