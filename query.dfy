/** The visible-task query of `renderTasks`: a filter predicate over project, status
    and search text, then a sort by completion, due date and priority. */
module Query {
  import opened Text
  import opened Seqs
  import opened Dates
  import opened Tasks

  /** What the view is filtered by: the selected project ("all" for every project), the
      status radio value, the raw search box text, and the local date of "today". */
  datatype View = View(projectFilter: string, statusFilter: string, searchText: string, today: CalendarDate)

  /** The filter callback of `renderTasks`, test by test in the order the code applies them. */
  predicate Matches(t: Task, v: View): (b: bool)
    // a task is shown exactly when it passes every active filter
    ensures b <==>
      (v.projectFilter == "all" || t.project == v.projectFilter) &&
      (v.statusFilter == "pending" ==> !t.completed) &&
      (v.statusFilter == "completed" ==> t.completed) &&
      (v.statusFilter == "today" ==> t.dueDate == FormatDate(v.today)) &&
      (!AllWhitespace(v.searchText) ==>
         Contains(Lower(t.title), Lower(v.searchText)) || Contains(Lower(t.description), Lower(v.searchText)))
    // with every filter at its default, every task is shown
    ensures v.projectFilter == "all" && v.statusFilter == "all" && AllWhitespace(v.searchText) ==> b
  {
    if v.projectFilter != "all" && t.project != v.projectFilter then false
    else if v.statusFilter == "pending" && t.completed then false
    else if v.statusFilter == "completed" && !t.completed then false
    else if v.statusFilter == "today" && t.dueDate != FormatDate(v.today) then false
    else if Trim(v.searchText) != "" then
      var term := Lower(v.searchText);
      Contains(Lower(t.title), term) || Contains(Lower(t.description), term)
    else true
  }

  /** `tasks.filter(...)` with the callback above. */
  function Selected(ts: seq<Task>, v: View): (r: seq<Task>)
    ensures IsSubsequence(r, ts)
    ensures forall t :: t in r <==> t in ts && Matches(t, v)
    ensures forall t :: multiset(r)[t] == if Matches(t, v) then multiset(ts)[t] else 0
  {
    FilterMultiset((t: Task) => Matches(t, v), ts);
    Filter((t: Task) => Matches(t, v), ts)
  }

  /** `priorityOrder`: high 0, medium 1, low 2. */
  function Rank(p: Priority): (r: int)
    ensures 0 <= r <= 2
    ensures r == 0 <==> p == High
    ensures r == 2 <==> p == Low
  {
    match p
    case High => 0
    case Medium => 1
    case Low => 2
  }

  /** The sort comparator of `renderTasks`; only its sign matters. Due dates are
      compared only when both tasks have one, as text (see Dates.FormatDateOrder). */
  function Cmp(a: Task, b: Task): (r: int)
    ensures -2 <= r <= 2
    // an incomplete task always comes before a completed one
    ensures !a.completed && b.completed ==> r < 0
    // a tie only between tasks with the same completion and priority and no two distinct due dates
    ensures r == 0 <==>
              a.completed == b.completed && a.priority == b.priority &&
              !(a.dueDate != "" && b.dueDate != "" && a.dueDate != b.dueDate)
  {
    if a.completed != b.completed then (if a.completed then 1 else -1)
    else if a.dueDate != "" && b.dueDate != "" && a.dueDate != b.dueDate then
      (if StrLess(a.dueDate, b.dueDate) then -1 else 1)
    else Rank(a.priority) - Rank(b.priority)
  }

  /** The comparator is antisymmetric in sign, whatever the tasks. */
  lemma CmpAntisymmetric(a: Task, b: Task)
    ensures Cmp(a, b) < 0 <==> Cmp(b, a) > 0
    ensures Cmp(a, b) == 0 <==> Cmp(b, a) == 0
  {
    StrLessTrichotomy(a.dueDate, b.dueDate);
  }

  /** Any incomplete task comes before any completed one, whatever their other fields. */
  lemma IncompleteBeforeCompleted(a: Task, b: Task)
    requires !a.completed && b.completed
    ensures Cmp(a, b) < 0 && Cmp(b, a) > 0
  {
  }

  /** Between tasks of equal completion with two different due dates, the earlier date decides. */
  lemma EarlierDueDateFirst(a: Task, b: Task)
    requires a.completed == b.completed
    requires a.dueDate != "" && b.dueDate != "" && StrLess(a.dueDate, b.dueDate)
    ensures Cmp(a, b) < 0 && Cmp(b, a) > 0
  {
    StrLessTrichotomy(a.dueDate, b.dueDate);
    StrLessIrreflexive(a.dueDate);
  }

  /** Otherwise priority decides: high before medium before low. */
  lemma PriorityDecidesOtherwise(a: Task, b: Task)
    requires a.completed == b.completed
    requires a.dueDate == "" || b.dueDate == "" || a.dueDate == b.dueDate
    ensures Cmp(a, b) < 0 <==> Rank(a.priority) < Rank(b.priority)
  {
  }

  /** The comparator is not transitive: with one undated task among dated ones the
      order can cycle, so no sort can satisfy it for every pair. */
  lemma CmpCanCycle()
    ensures var a := Task("a", "A", "", "2024-01-02", High, "work", false, "");
            var b := Task("b", "B", "", "", Medium, "work", false, "");
            var c := Task("c", "C", "", "2024-01-01", Low, "work", false, "");
            Cmp(c, a) < 0 && Cmp(a, b) < 0 && Cmp(b, c) < 0
  {
    var p, d1, d2 := "2024-01-0", "2024-01-01", "2024-01-02";
    assert d1 == p + "1" && d2 == p + "2";
    assert StrLess("1", "2") by { assert "1"[0] < "2"[0]; }
    StrLessConcat(p, "1", p, "2");
    StrLessTrichotomy(d1, d2);
    var a := Task("a", "A", "", d2, High, "work", false, "");
    var c := Task("c", "C", "", d1, Low, "work", false, "");
    assert Cmp(c, a) < 0;
  }

  /** Neighbours are in comparator order. */
  predicate AdjacentOrdered(s: seq<Task>) {
    forall i :: 0 <= i < |s| - 1 ==> Cmp(s[i], s[i + 1]) <= 0
  }

  /** Every incomplete task precedes every completed one. */
  predicate IncompleteFirst(s: seq<Task>) {
    forall i, j :: 0 <= i < j < |s| && s[i].completed ==> s[j].completed
  }

  /** Every pair is in comparator order. */
  predicate Sorted(s: seq<Task>) {
    forall i, j :: 0 <= i < j < |s| ==> Cmp(s[i], s[j]) <= 0
  }

  /** Inserts `x` before the first element that the comparator puts after it. */
  function Insert(x: Task, s: seq<Task>): (r: seq<Task>)
    ensures |r| == |s| + 1
    ensures multiset(r) == multiset(s) + multiset{x}
    ensures r[0] == x || (s != [] && r[0] == s[0])
    decreases |s|
  {
    if s == [] then [x]
    else if Cmp(s[0], x) > 0 then [x] + s
    else
      assert s == [s[0]] + s[1..];
      [s[0]] + Insert(x, s[1..])
  }

  /** Inserting into a list whose neighbours are in order keeps them in order. */
  lemma {:induction false} InsertKeepsOrder(x: Task, s: seq<Task>)
    requires AdjacentOrdered(s)
    ensures AdjacentOrdered(Insert(x, s))
    decreases |s|
  {
    if s != [] {
      var r := Insert(x, s);
      if Cmp(s[0], x) > 0 {
        CmpAntisymmetric(s[0], x);
        assert r == [x] + s;
        assert forall i :: 1 <= i < |r| ==> r[i] == s[i - 1];
      } else {
        var rest := Insert(x, s[1..]);
        assert AdjacentOrdered(s[1..]);
        InsertKeepsOrder(x, s[1..]);
        assert r == [s[0]] + rest;
        assert forall i :: 1 <= i < |r| ==> r[i] == rest[i - 1];
      }
    }
  }

  /** `Array.prototype.sort` with the comparator: a stable insertion sort, each element
      inserted after the equal ones already placed. The result is a permutation of the
      input (SortTasksOrdered: whose neighbours are in comparator order). */
  function SortTasks(s: seq<Task>): (r: seq<Task>)
    ensures multiset(r) == multiset(s)
    ensures |r| == |s|
    decreases |s|
  {
    if s == [] then []
    else
      var front, last := s[..|s| - 1], s[|s| - 1];
      assert s == front + [last];
      Insert(last, SortTasks(front))
  }

  /** The sorted list has its neighbours in comparator order. */
  lemma {:induction false} SortTasksOrdered(s: seq<Task>)
    ensures AdjacentOrdered(SortTasks(s))
    decreases |s|
  {
    if s != [] {
      var front := s[..|s| - 1];
      SortTasksOrdered(front);
      InsertKeepsOrder(s[|s| - 1], SortTasks(front));
    }
  }

  /** Neighbour order already separates incomplete from completed tasks. */
  lemma {:induction false} AdjacentIncompleteFirst(s: seq<Task>)
    requires AdjacentOrdered(s)
    ensures IncompleteFirst(s)
    decreases |s|
  {
    if |s| > 1 {
      AdjacentIncompleteFirst(s[1..]);
      assert IncompleteFirst(s[1..]);
      forall j | 0 < j < |s| && s[0].completed
        ensures s[j].completed
      {
        assert s[1].completed;
        if j > 1 { assert s[1..][0].completed && s[1..][j - 1] == s[j]; }
      }
    }
  }

  /** All tasks have a due date, or none has. */
  predicate UniformlyDated(s: seq<Task>) {
    (forall i :: 0 <= i < |s| ==> s[i].dueDate != "") ||
    (forall i :: 0 <= i < |s| ==> s[i].dueDate == "")
  }

  /** On tasks that are all dated or all undated the comparator is transitive. */
  lemma CmpTransitive(a: Task, b: Task, c: Task)
    requires (a.dueDate != "" && b.dueDate != "" && c.dueDate != "") ||
             (a.dueDate == "" && b.dueDate == "" && c.dueDate == "")
    requires Cmp(a, b) <= 0 && Cmp(b, c) <= 0
    ensures Cmp(a, c) <= 0
  {
    StrLessTrichotomy(a.dueDate, b.dueDate);
    StrLessTrichotomy(b.dueDate, c.dueDate);
    StrLessTrichotomy(a.dueDate, c.dueDate);
    if StrLess(a.dueDate, b.dueDate) && StrLess(b.dueDate, c.dueDate) {
      StrLessTransitive(a.dueDate, b.dueDate, c.dueDate);
    }
  }

  /** When the comparator is transitive on the elements, neighbour order is full order. */
  lemma {:induction false} AdjacentSorted(s: seq<Task>)
    requires AdjacentOrdered(s) && UniformlyDated(s)
    ensures Sorted(s)
    decreases |s|
  {
    if |s| > 1 {
      var t := s[1..];
      assert AdjacentOrdered(t) && UniformlyDated(t);
      AdjacentSorted(t);
      forall j | 1 < j < |s|
        ensures Cmp(s[0], s[j]) <= 0
      {
        assert Cmp(s[1], s[j]) <= 0 by { assert s[1] == t[0] && s[j] == t[j - 1]; }
        CmpTransitive(s[0], s[1], s[j]);
      }
    }
  }

  /** When every task to sort has a due date, or none has, the result is fully sorted. */
  lemma SortedWhenUniformlyDated(s: seq<Task>)
    requires UniformlyDated(s)
    ensures Sorted(SortTasks(s))
  {
    var r := SortTasks(s);
    SortTasksOrdered(s);
    forall i | 0 <= i < |r|
      ensures r[i] in s
    {
      assert r[i] in multiset(r);
    }
    assert UniformlyDated(r) by {
      if forall i :: 0 <= i < |s| ==> s[i].dueDate != "" {
        assert forall i :: 0 <= i < |r| ==> r[i].dueDate != "";
      } else {
        assert forall i :: 0 <= i < |r| ==> r[i].dueDate == "";
      }
    }
    AdjacentSorted(r);
  }

  /** The visible list: the selected tasks, sorted (an empty selection is shown as the
      empty state without sorting). */
  function Visible(ts: seq<Task>, v: View): (r: seq<Task>)
    ensures multiset(r) == multiset(Selected(ts, v))
    ensures forall t :: t in r <==> t in ts && Matches(t, v)
    ensures IncompleteFirst(r)
    ensures AdjacentOrdered(r)
  {
    var selected := Selected(ts, v);
    if selected == [] then []
    else
      var r := SortTasks(selected);
      assert forall t :: t in r <==> t in multiset(selected);
      SortTasksOrdered(selected);
      AdjacentIncompleteFirst(r);
      r
  }

  /** A task is visible exactly when it is in the list, belongs to the selected project
      (unless "all" is selected), passes the status test, and, when the trimmed search
      text is not empty, contains the lower-cased untrimmed search text in its
      lower-cased title or description. */
  lemma VisibleExactly(ts: seq<Task>, v: View, t: Task)
    ensures t in Visible(ts, v) <==>
      && t in ts
      && (v.projectFilter != "all" ==> t.project == v.projectFilter)
      && (v.statusFilter == "pending" ==> !t.completed)
      && (v.statusFilter == "completed" ==> t.completed)
      && (v.statusFilter == "today" ==> t.dueDate == FormatDate(v.today))
      && (Trim(v.searchText) != "" ==>
            Contains(Lower(t.title), Lower(v.searchText)) ||
            Contains(Lower(t.description), Lower(v.searchText)))
  {
  }
}
