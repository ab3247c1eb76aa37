/** What each command handler does to the task and project lists, as functions of the
    lists before the command and of the inputs the browser supplies (form fields, the
    confirm answer, a fresh id, the current time). The class in store.dfy performs these
    updates in place. */
module Commands {
  import opened Text
  import opened Seqs
  import opened Tasks

  // ---------------------------------------------------------------- create / update

  /** The fields of the task form at submit time. `taskId` is the hidden id field:
      "" when creating, the edited task's id when updating. */
  datatype TaskForm = TaskForm(
    taskId: string,
    title: string,
    description: string,
    dueDate: string,
    priority: Priority,
    project: string,
    completed: bool)

  /** `taskData` of `handleTaskSubmit`: trimmed title and description, the form's id or
      the fresh one, and the creation time of the edited task when it has one. */
  function FormTask(ts: seq<Task>, form: TaskForm, freshId: string, now: string): (r: Task)
    // the id is the form's when editing, the fresh one when creating
    ensures form.taskId != "" ==> r.id == form.taskId
    ensures form.taskId == "" ==> r.id == freshId
    // title and description are trimmed; the title is empty exactly for a blank one
    ensures r.title == Trim(form.title) && r.description == Trim(form.description)
    ensures r.title == "" <==> AllWhitespace(form.title)
    // the other fields are copied from the form
    ensures r.dueDate == form.dueDate && r.priority == form.priority
    ensures r.project == form.project && r.completed == form.completed
    // an edited task keeps a non-empty creation time; anything else is stamped now
    ensures form.taskId != "" && FirstIndex(ts, form.taskId) >= 0 &&
            ts[FirstIndex(ts, form.taskId)].createdAt != "" ==>
              r.createdAt == ts[FirstIndex(ts, form.taskId)].createdAt
    ensures form.taskId == "" || FirstIndex(ts, form.taskId) == -1 ==> r.createdAt == now
    ensures form.taskId != "" && FirstIndex(ts, form.taskId) >= 0 &&
            ts[FirstIndex(ts, form.taskId)].createdAt == ""
            ==> r.createdAt == now
  {
    var createdAt :=
      if form.taskId == "" then now
      else
        var i := FirstIndex(ts, form.taskId);
        if i >= 0 && ts[i].createdAt != "" then ts[i].createdAt else now;
    Task(if form.taskId != "" then form.taskId else freshId,
         Trim(form.title), Trim(form.description), form.dueDate,
         form.priority, form.project, form.completed, createdAt)
  }

  /** The task list after `handleTaskSubmit`. */
  function AfterSubmit(ts: seq<Task>, form: TaskForm, freshId: string, now: string): (r: seq<Task>)
    // a title that is empty after trimming changes nothing
    ensures AllWhitespace(form.title) ==> r == ts
    // creating appends exactly one task, carrying the fresh id and the current time
    ensures !AllWhitespace(form.title) && form.taskId == "" ==>
              |r| == |ts| + 1 && r[..|ts|] == ts && r[|ts|] == FormTask(ts, form, freshId, now) &&
              r[|ts|].id == freshId &&
              r[|ts|].createdAt == now && r[|ts|].title == Trim(form.title) && r[|ts|].title != ""
    // updating never changes the length nor any id
    ensures form.taskId != "" ==>
              |r| == |ts| && forall j :: 0 <= j < |ts| ==> r[j].id == ts[j].id
    // updating an unknown id changes nothing
    ensures form.taskId != "" && FirstIndex(ts, form.taskId) == -1 ==> r == ts
    // updating a known id replaces only the first task with that id, keeping its creation time
    ensures !AllWhitespace(form.title) && form.taskId != "" && FirstIndex(ts, form.taskId) >= 0 ==>
              var i := FirstIndex(ts, form.taskId);
              r[i] == FormTask(ts, form, freshId, now) &&
              (ts[i].createdAt != "" ==> r[i].createdAt == ts[i].createdAt) &&
              forall j :: 0 <= j < |ts| && j != i ==> r[j] == ts[j]
  {
    var data := FormTask(ts, form, freshId, now);
    if data.title == "" then ts
    else if form.taskId != "" then
      var i := FirstIndex(ts, form.taskId);
      if i != -1 then
        assert data.id == ts[i].id;
        var r := ts[i := data];
        assert forall j :: 0 <= j < |ts| && j != i ==> r[j] == ts[j];
        r
      else ts
    else ts + [data]
  }

  /** Submitting keeps ids unique as long as a created task gets an id not yet in use. */
  lemma SubmitKeepsIdsUnique(ts: seq<Task>, form: TaskForm, freshId: string, now: string)
    requires UniqueIds(ts)
    requires form.taskId == "" ==> !HasTask(ts, freshId)
    ensures UniqueIds(AfterSubmit(ts, form, freshId, now))
  {
    var r := AfterSubmit(ts, form, freshId, now);
    if form.taskId != "" {
      SameIdsKeepUnique(ts, r);
    } else if !AllWhitespace(form.title) {
      assert r == ts + [r[|ts|]];
      AppendFreshTask(ts, r[|ts|]);
    }
  }

  /** A list with the same ids position by position as a list with unique ids has unique ids. */
  lemma SameIdsKeepUnique(ts: seq<Task>, r: seq<Task>)
    requires UniqueIds(ts)
    requires |r| == |ts| && forall j :: 0 <= j < |ts| ==> r[j].id == ts[j].id
    ensures UniqueIds(r)
  {
  }

  /** Appending a task whose id is not in use keeps ids unique. */
  lemma AppendFreshTask(ts: seq<Task>, t: Task)
    requires UniqueIds(ts) && !HasTask(ts, t.id)
    ensures UniqueIds(ts + [t])
  {
    var r := ts + [t];
    forall i, j | 0 <= i < j < |r|
      ensures r[i].id != r[j].id
    {
      assert r[i] == ts[i];
      if j < |ts| {
        assert r[j] == ts[j];
      }
    }
  }

  // ---------------------------------------------------------------- toggle

  /** The task list after `toggleTaskCompletion(id)`. */
  function Toggled(ts: seq<Task>, id: string): (r: seq<Task>)
    ensures |r| == |ts|
    ensures forall j :: 0 <= j < |ts| ==> r[j].id == ts[j].id
    ensures FirstIndex(ts, id) == -1 ==> r == ts
    ensures FirstIndex(ts, id) >= 0 ==>
              var i := FirstIndex(ts, id);
              r[i].completed == !ts[i].completed &&
              r[i] == ts[i].(completed := r[i].completed) &&
              forall j :: 0 <= j < |ts| && j != i ==> r[j] == ts[j]
    ensures UniqueIds(ts) ==> UniqueIds(r)
  {
    var i := FirstIndex(ts, id);
    var r := if i >= 0 then ts[i := ts[i].(completed := !ts[i].completed)] else ts;
    if UniqueIds(ts) then SameIdsKeepUnique(ts, r); r else r
  }

  /** Toggling the same id twice restores the list. */
  lemma {:induction false} ToggleTwice(ts: seq<Task>, id: string)
    ensures Toggled(Toggled(ts, id), id) == ts
  {
    FirstIndexOnlyReadsIds(ts, Toggled(ts, id), id);
  }

  // ---------------------------------------------------------------- delete / clear

  /** The task list after a confirmed `deleteTask(id)`: every task with that id is gone,
      every other task stays, as often as before and in the same order. */
  function Without(ts: seq<Task>, id: string): (r: seq<Task>)
    ensures forall t :: t in r <==> t in ts && t.id != id
    ensures forall t :: multiset(r)[t] == if t.id == id then 0 else multiset(ts)[t]
    ensures IsSubsequence(r, ts)
    ensures (forall j :: 0 <= j < |ts| ==> ts[j].id != id) ==> r == ts
    ensures UniqueIds(ts) ==> UniqueIds(r)
  {
    var p := (t: Task) => t.id != id;
    var r := Filter(p, ts);
    assert forall t :: p(t) == (t.id != id);
    FilterMultiset(p, ts);
    FilterKeepsIdsUnique(p, ts);
    if forall j :: 0 <= j < |ts| ==> ts[j].id != id then
      FilterAllPass(p, ts);
      r
    else r
  }

  /** The task list after a confirmed `clearCompletedTasks`: exactly the incomplete tasks,
      in their original order. */
  function Incomplete(ts: seq<Task>): (r: seq<Task>)
    ensures forall t :: t in r <==> t in ts && !t.completed
    ensures forall t :: multiset(r)[t] == if t.completed then 0 else multiset(ts)[t]
    ensures IsSubsequence(r, ts)
    ensures UniqueIds(ts) ==> UniqueIds(r)
  {
    FilterMultiset(IsOpen, ts);
    FilterKeepsIdsUnique(IsOpen, ts);
    Filter(IsOpen, ts)
  }

  predicate IsOpen(t: Task) {
    !t.completed
  }

  predicate IsDone(t: Task) {
    t.completed
  }

  /** Removing tasks keeps ids unique. */
  lemma {:induction false} FilterKeepsIdsUnique(p: Task -> bool, ts: seq<Task>)
    ensures UniqueIds(ts) ==> UniqueIds(Filter(p, ts))
    decreases |ts|
  {
    if ts != [] && UniqueIds(ts) {
      var rest := Filter(p, ts[1..]);
      assert UniqueIds(ts[1..]);
      FilterKeepsIdsUnique(p, ts[1..]);
      forall j | 0 <= j < |rest|
        ensures rest[j].id != ts[0].id
      {
        assert rest[j] in ts[1..];
        var k :| 0 <= k < |ts[1..]| && ts[1..][k] == rest[j];
        assert ts[k + 1] == rest[j];
      }
    }
  }

  // ---------------------------------------------------------------- stats

  datatype Stats = Stats(total: nat, completed: nat, pending: nat, progress: nat)

  /** `tasks.filter(t => t.completed).length`. */
  function CompletedCount(ts: seq<Task>): (c: nat)
    ensures c <= |ts|
    ensures c == 0 <==> forall i :: 0 <= i < |ts| ==> !ts[i].completed
  {
    var done := Filter(IsDone, ts);
    assert forall i :: 0 <= i < |ts| && ts[i].completed ==> ts[i] in done;
    |done|
  }

  /** The completed and the incomplete tasks together are all of them. */
  lemma {:induction false} CountsAddUp(ts: seq<Task>)
    ensures CompletedCount(ts) + |Incomplete(ts)| == |ts|
    decreases |ts|
  {
    if ts != [] {
      CountsAddUp(ts[1..]);
    }
  }

  /** `Math.round((completed / total) * 100)` on exact rationals, 0 for no tasks: the
      percentage rounded half up, so it is within half a point of the exact value. */
  function Percent(completed: nat, total: nat): (p: nat)
    requires completed <= total
    ensures p <= 100
    ensures total == 0 ==> p == 0
    ensures total > 0 ==> 200 * completed - total < 2 * p * total <= 200 * completed + total
  {
    if total == 0 then 0
    else
      var n, d := 200 * completed + total, 2 * total;
      var p := n / d;
      DivBounds(n, d);
      assert d * p <= n < d * 101;
      MulLessCancel(d, p, 101);
      p
  }

  /** Euclidean division of a natural number by a positive one. */
  lemma DivBounds(n: nat, d: nat)
    requires d > 0
    ensures d * (n / d) <= n < d * (n / d) + d
  {
  }

  lemma MulLessCancel(a: int, x: int, y: int)
    requires a > 0 && a * x < a * y
    ensures x < y
  {
    assert a * (y - x) == a * y - a * x;
    FactorPositive(a, y - x);
  }

  lemma FactorPositive(a: int, b: int)
    requires a > 0 && a * b > 0
    ensures b > 0
  {
  }

  /** No task done is 0%. */
  lemma PercentNone(total: nat)
    ensures Percent(0, total) == 0
  {
    if total > 0 {
      var p := Percent(0, total);
      assert 2 * p * total <= total;
      assert 2 * total * (1 - p) == 2 * total - 2 * p * total;
      FactorPositive(2 * total, 1 - p);
    }
  }

  /** Every task done is 100%. */
  lemma PercentAll(total: nat)
    requires total > 0
    ensures Percent(total, total) == 100
  {
    var p := Percent(total, total);
    assert 2 * p * total > 199 * total;
    assert 2 * total * (p - 99) == 2 * p * total - 198 * total;
    FactorPositive(2 * total, p - 99);
  }

  /** `updateStats`: total, completed and pending counts, which add up, and the rounded
      completion percentage. */
  function ComputeStats(ts: seq<Task>): (s: Stats)
    ensures s.total == |ts| && s.completed + s.pending == s.total
    ensures s.completed == CompletedCount(ts) && s.pending == |Incomplete(ts)|
    ensures s.progress == Percent(s.completed, s.total)
  {
    CountsAddUp(ts);
    var total, completed := |ts|, CompletedCount(ts);
    Stats(total, completed, total - completed, Percent(completed, total))
  }

  /** A list with no completed task has completed count 0 and is its own incomplete part. */
  lemma {:induction false} NoneCompleted(ts: seq<Task>)
    requires forall i :: 0 <= i < |ts| ==> !ts[i].completed
    ensures CompletedCount(ts) == 0 && Incomplete(ts) == ts
    decreases |ts|
  {
    if ts != [] {
      NoneCompleted(ts[1..]);
      assert ts == [ts[0]] + ts[1..];
    }
  }

  /** After clear-completed no task is completed and progress is 0. */
  lemma ClearedStats(ts: seq<Task>)
    ensures ComputeStats(Incomplete(ts)) == Stats(|Incomplete(ts)|, 0, |Incomplete(ts)|, 0)
  {
    var r := Incomplete(ts);
    assert forall i :: 0 <= i < |r| ==> r[i] in r;
    NoneCompleted(r);
    PercentNone(|r|);
  }

  // ---------------------------------------------------------------- import / export

  /** An object of an imported JSON document, read with the field names of a task;
      `completed` is None when it is not a JSON boolean. */
  datatype Record = Record(
    id: string,
    title: string,
    description: string,
    dueDate: string,
    priority: Priority,
    project: string,
    completed: Option<bool>,
    createdAt: string)

  /** An element of an imported JSON array: `null` (reading a field of it throws), any
      other non-object value (its fields read as undefined), or an object. */
  datatype Element = JsonNull | NonObject | Object(record: Record)

  /** What `JSON.parse` gave for the chosen file. */
  datatype Payload = Unparsable | NotArray | JsonArray(items: seq<Element>)

  datatype ImportError = ReadFailed | InvalidFormat | NoValidTasks

  /** The import validator: a truthy id, a truthy title and a boolean `completed`. */
  predicate IsValidElement(e: Element) {
    e.Object? && e.record.id != "" && e.record.title != "" && e.record.completed.Some?
  }

  /** The JSON object `JSON.stringify` writes for a task. */
  function RecordOf(t: Task): Record {
    Record(t.id, t.title, t.description, t.dueDate, t.priority, t.project, Some(t.completed), t.createdAt)
  }

  function RecordTask(r: Record): Task
    requires r.completed.Some?
  {
    Task(r.id, r.title, r.description, r.dueDate, r.priority, r.project, r.completed.value, r.createdAt)
  }

  /** The tasks kept from an imported array: exactly the valid elements, in order, each
      read as the task it writes out as. */
  function Retained(items: seq<Element>): (r: seq<Task>)
    ensures |r| <= |items|
    ensures forall i :: 0 <= i < |r| ==> r[i].id != "" && r[i].title != ""
    decreases |items|
  {
    if items == [] then []
    else
      var rest := Retained(items[1..]);
      assert items == [items[0]] + items[1..];
      if IsValidElement(items[0]) then [RecordTask(items[0].record)] + rest else rest
  }

  /** Written back out, the retained tasks are exactly the valid elements, in order. */
  lemma {:induction false} RetainedAreValidElements(items: seq<Element>)
    ensures Export(Retained(items)) == Filter(IsValidElement, items)
    decreases |items|
  {
    if items != [] {
      RetainedAreValidElements(items[1..]);
      var rest := Retained(items[1..]);
      if IsValidElement(items[0]) {
        var t := RecordTask(items[0].record);
        assert Retained(items) == [t] + rest;
        assert ([t] + rest)[1..] == rest;
        assert Object(RecordOf(t)) == items[0];
      }
    }
  }

  /** The decision of the import handler before the confirmation: an error, or the tasks
      that would replace the list. */
  function PlanImport(payload: Payload): (r: Result<seq<Task>, ImportError>)
    ensures payload.Unparsable? ==> r == Failure(ReadFailed)
    ensures payload.NotArray? ==> r == Failure(InvalidFormat)
    ensures payload.JsonArray? && JsonNull in payload.items ==> r == Failure(ReadFailed)
    ensures payload.JsonArray? && JsonNull !in payload.items ==>
              (r == Failure(NoValidTasks) <==> forall e :: e in payload.items ==> !IsValidElement(e))
    ensures r.Success? ==> payload.JsonArray? && r.value == Retained(payload.items) && |r.value| > 0
    // an array with no `null` and some valid element succeeds with the valid tasks
    ensures payload.JsonArray? && JsonNull !in payload.items &&
            (exists e :: e in payload.items && IsValidElement(e))
            ==> r == Success(Retained(payload.items))
  {
    match payload
    case Unparsable => Failure(ReadFailed)
    case NotArray => Failure(InvalidFormat)
    case JsonArray(items) =>
      if JsonNull in items then Failure(ReadFailed)
      else
        var valid := Retained(items);
        RetainedAreValidElements(items);
        if |valid| == 0 then Failure(NoValidTasks) else Success(valid)
  }

  /** The task list after the import handler: replaced wholesale when the plan succeeds
      and the user confirms, unchanged otherwise. */
  function AfterImport(ts: seq<Task>, payload: Payload, confirmed: bool): (r: seq<Task>)
    ensures r == ts || (confirmed && PlanImport(payload).Success? && r == PlanImport(payload).value)
    ensures !confirmed || PlanImport(payload).Failure? ==> r == ts
    // a confirmed successful import replaces the list by the valid tasks
    ensures confirmed && PlanImport(payload).Success? ==> r == PlanImport(payload).value
  {
    var plan := PlanImport(payload);
    if plan.Success? && confirmed then plan.value else ts
  }

  /** `exportTasks`: the JSON array of the task list. */
  function Export(ts: seq<Task>): (r: seq<Element>)
    ensures |r| == |ts|
    ensures forall i :: 0 <= i < |ts| ==> r[i] == Object(RecordOf(ts[i]))
    decreases |ts|
  {
    if ts == [] then []
    else
      var rest := Export(ts[1..]);
      assert forall i :: 1 <= i < |ts| ==> ts[1..][i - 1] == ts[i];
      [Object(RecordOf(ts[0]))] + rest
  }

  /** Importing an exported non-empty list whose tasks all have an id and a title gives
      the same list back. */
  lemma {:induction false} ExportImportRoundTrip(ts: seq<Task>)
    requires forall i :: 0 <= i < |ts| ==> ts[i].id != "" && ts[i].title != ""
    ensures Retained(Export(ts)) == ts
    ensures ts != [] ==> PlanImport(JsonArray(Export(ts))) == Success(ts)
    decreases |ts|
  {
    var items := Export(ts);
    if ts != [] {
      assert Export(ts)[1..] == Export(ts[1..]);
      ExportImportRoundTrip(ts[1..]);
      assert IsValidElement(items[0]);
    }
    assert JsonNull !in items;
  }

  /** Import checks each element on its own and never compares ids: a file that lists
      the same valid object twice replaces the task list by two tasks with one id. */
  lemma ImportCanDuplicateIds(ts: seq<Task>, rec: Record)
    requires IsValidElement(Object(rec))
    ensures AfterImport(ts, JsonArray([Object(rec), Object(rec)]), true) == [RecordTask(rec), RecordTask(rec)]
    ensures !UniqueIds(AfterImport(ts, JsonArray([Object(rec), Object(rec)]), true))
  {
    var items := [Object(rec), Object(rec)];
    assert items[1..] == [Object(rec)] && items[1..][1..] == [];
    var r := [RecordTask(rec), RecordTask(rec)];
    assert Retained(items) == r;
    assert r[0].id == r[1].id;
  }

  // ---------------------------------------------------------------- projects

  predicate NoUpper(s: string) {
    forall i :: 0 <= i < |s| ==> !IsUpper(s[i])
  }

  /** `replace(/\s+/g, '-')`: every maximal whitespace run becomes one hyphen. */
  function HyphenateWhitespace(s: string): (r: string)
    ensures |r| <= |s|
    ensures r == [] <==> s == []
    decreases |s|
  {
    if s == [] then []
    else if IsWhitespace(s[0]) then "-" + HyphenateWhitespace(TrimStart(s[1..]))
    else [s[0]] + HyphenateWhitespace(s[1..])
  }

  /** No whitespace survives hyphenation. */
  lemma {:induction false} HyphenatedHasNoWhitespace(s: string)
    ensures NoWhitespace(HyphenateWhitespace(s))
    decreases |s|
  {
    if s != [] {
      if IsWhitespace(s[0]) {
        HyphenatedHasNoWhitespace(TrimStart(s[1..]));
      } else {
        HyphenatedHasNoWhitespace(s[1..]);
      }
    }
  }

  /** A string without whitespace is left as it is. */
  lemma {:induction false} HyphenateWithoutWhitespace(s: string)
    requires NoWhitespace(s)
    ensures HyphenateWhitespace(s) == s
    decreases |s|
  {
    if s != [] {
      HyphenateWithoutWhitespace(s[1..]);
      assert s == [s[0]] + s[1..];
    }
  }

  /** Hyphenation adds no upper-case letter. */
  lemma {:induction false} HyphenateKeepsNoUpper(s: string)
    requires NoUpper(s)
    ensures NoUpper(HyphenateWhitespace(s))
    decreases |s|
  {
    if s != [] {
      if IsWhitespace(s[0]) {
        var t := TrimStart(s[1..]);
        assert forall i :: 0 <= i < |t| ==> t[i] == s[1..][|s| - 1 - |t| + i];
        HyphenateKeepsNoUpper(t);
      } else {
        HyphenateKeepsNoUpper(s[1..]);
      }
    }
  }

  /** The project id derived from a name: lower-cased, whitespace runs turned into hyphens.
      It has no whitespace, is empty only for an empty name, and is just the lower-cased
      name when the name has no whitespace. */
  function Slug(name: string): (r: string)
    ensures NoWhitespace(r) && NoUpper(r)
    ensures r == [] <==> name == []
    ensures |r| <= |name|
    ensures NoWhitespace(name) ==> r == Lower(name)
  {
    var lower := Lower(name);
    HyphenatedHasNoWhitespace(lower);
    HyphenateKeepsNoUpper(lower);
    if NoWhitespace(name) then HyphenateWithoutWhitespace(lower); HyphenateWhitespace(lower)
    else HyphenateWhitespace(lower)
  }

  /** Deriving an id from an id gives the same id. */
  lemma SlugIdempotent(name: string)
    ensures Slug(Slug(name)) == Slug(name)
  {
    var s := Slug(name);
    assert Lower(s) == s;
  }

  datatype ProjectError = NameRequired | DuplicateProject

  /** The project list after `handleProjectSubmit`, or why it was refused. */
  function AddProject(ps: seq<Project>, name: string, color: string): (r: Result<seq<Project>, ProjectError>)
    ensures r == Failure(NameRequired) <==> AllWhitespace(name)
    ensures r == Failure(DuplicateProject) <==> !AllWhitespace(name) && HasProject(ps, Slug(Trim(name)))
    ensures r.Success? ==>
              |r.value| == |ps| + 1 && r.value[..|ps|] == ps &&
              r.value[|ps|] == Project(Slug(Trim(name)), Trim(name), color, "fa-folder")
    ensures r.Success? ==> Slug(Trim(name)) != "" && NoWhitespace(Slug(Trim(name)))
    ensures r.Success? && UniqueProjectIds(ps) ==> UniqueProjectIds(r.value)
  {
    var trimmed := Trim(name);
    if trimmed == "" then Failure(NameRequired)
    else
      var id := Slug(trimmed);
      if HasProject(ps, id) then Failure(DuplicateProject)
      else
        var r := ps + [Project(id, trimmed, color, "fa-folder")];
        assert r[..|ps|] == ps;
        AppendFreshId(ps, r);
        Success(r)
  }

  /** Appending a project whose id no listed project has keeps the ids distinct. */
  lemma AppendFreshId(ps: seq<Project>, r: seq<Project>)
    requires |r| == |ps| + 1 && r[..|ps|] == ps && !HasProject(ps, r[|ps|].id)
    ensures UniqueProjectIds(ps) ==> UniqueProjectIds(r)
  {
    if UniqueProjectIds(ps) {
      forall i, j | 0 <= i < j < |r|
        ensures r[i].id != r[j].id
      {
        assert r[i] == ps[i];
        if j < |ps| { assert r[j] == ps[j]; }
      }
    }
  }

  /** "Home Stuff" becomes the project id "home-stuff". */
  lemma HomeStuffSlug()
    ensures Slug("Home Stuff") == "home-stuff"
  {
    HomeStuffWords();
    SlugTwoWords("Home", "Stuff");
    LowerHomeStuff();
  }

  lemma HomeStuffWords()
    ensures NoWhitespace("Home") && NoWhitespace("Stuff")
    ensures "Home" + " " + "Stuff" == "Home Stuff"
  {
  }

  /** Two words separated by one blank give the lower-cased words joined by a hyphen. */
  lemma SlugTwoWords(p: string, q: string)
    requires NoWhitespace(p) && NoWhitespace(q) && q != []
    ensures Slug(p + " " + q) == Lower(p) + "-" + Lower(q)
  {
    assert AllWhitespace(" ");
    SlugRun(p, " ", q);
  }

  lemma LowerHomeStuff()
    ensures Lower("Home") == "home" && Lower("Stuff") == "stuff"
    ensures "home" + "-" + "stuff" == "home-stuff"
  {
  }

  /** A whitespace-free prefix passes through hyphenation unchanged. */
  lemma {:induction false} HyphenatePrefix(p: string, s: string)
    requires NoWhitespace(p)
    ensures HyphenateWhitespace(p + s) == p + HyphenateWhitespace(s)
    decreases |p|
  {
    if p != [] {
      assert (p + s)[0] == p[0] && (p + s)[1..] == p[1..] + s;
      assert HyphenateWhitespace(p + s) == [p[0]] + HyphenateWhitespace(p[1..] + s);
      HyphenatePrefix(p[1..], s);
      assert p == [p[0]] + p[1..];
    } else {
      assert p + s == s;
    }
  }

  /** Skipping the leading whitespace of a whitespace run followed by a non-whitespace
      start lands on that start. */
  lemma {:induction false} SkipRun(w: string, s: string)
    requires AllWhitespace(w)
    requires s == [] || !IsWhitespace(s[0])
    ensures TrimStart(w + s) == s
    decreases |w|
  {
    if w == [] {
      assert w + s == s;
    } else {
      assert (w + s)[0] == w[0] && (w + s)[1..] == w[1..] + s;
      SkipRun(w[1..], s);
    }
  }

  /** A whole whitespace run, however long, becomes exactly one hyphen. */
  lemma HyphenateRun(w: string, s: string)
    requires w != [] && AllWhitespace(w)
    requires s == [] || !IsWhitespace(s[0])
    ensures HyphenateWhitespace(w + s) == "-" + HyphenateWhitespace(s)
  {
    assert (w + s)[0] == w[0] && (w + s)[1..] == w[1..] + s;
    SkipRun(w[1..], s);
  }

  /** The project id of a word, a whitespace run and the rest is the lower-cased word,
      one hyphen and the id of the rest. */
  lemma SlugRun(p: string, w: string, s: string)
    requires NoWhitespace(p)
    requires w != [] && AllWhitespace(w)
    requires s == [] || !IsWhitespace(s[0])
    ensures Slug(p + w + s) == Lower(p) + "-" + Slug(s)
  {
    var lp, lw, ls := Lower(p), Lower(w), Lower(s);
    assert Lower(p + w + s) == lp + (lw + ls);
    assert AllWhitespace(lw) && lw != [];
    assert NoWhitespace(lp);
    HyphenatePrefix(lp, lw + ls);
    HyphenateRun(lw, ls);
    assert lp + ("-" + HyphenateWhitespace(ls)) == lp + "-" + HyphenateWhitespace(ls);
  }

  /** Two blanks between words give one hyphen, like one blank. */
  lemma DoubleBlankSlug()
    ensures Slug("a  b") == "a-b"
  {
    var p, w, q := "a", "  ", "b";
    assert NoWhitespace(p) && NoWhitespace(q) && AllWhitespace(w);
    SlugRun(p, w, q);
    assert p + w + q == "a  b";
    assert Lower(p) == "a" && Lower(q) == "b";
    assert "a" + "-" + "b" == "a-b";
  }
}
