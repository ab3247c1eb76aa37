/** The records the task list keeps: tasks and projects, the built-in projects, and
    the lookups by id the command handlers share. */
module Tasks {

  datatype Option<T> = None | Some(value: T)

  datatype Result<T, E> = Success(value: T) | Failure(error: E)

  datatype Priority = High | Medium | Low

  /** A task as the app stores it. `dueDate` is the `YYYY-MM-DD` text of the date input,
      or "" for no due date; `createdAt` is an ISO timestamp text. */
  datatype Task = Task(
    id: string,
    title: string,
    description: string,
    dueDate: string,
    priority: Priority,
    project: string,
    completed: bool,
    createdAt: string)

  datatype Project = Project(id: string, name: string, color: string, icon: string)

  /** The projects the app starts with when none are stored. */
  const DefaultProjects: seq<Project> := [
    Project("all", "All Tasks", "#1976d2", "fa-list"),
    Project("personal", "Personal", "#4CAF50", "fa-user"),
    Project("work", "Work", "#2196F3", "fa-briefcase"),
    Project("shopping", "Shopping", "#9C27B0", "fa-shopping-cart")
  ]

  /** `tasks.findIndex(t => t.id === id)`: the position of the first task with that id,
      or -1 when there is none. */
  function FirstIndex(ts: seq<Task>, id: string): (r: int)
    ensures -1 <= r < |ts|
    ensures r == -1 <==> forall j :: 0 <= j < |ts| ==> ts[j].id != id
    ensures 0 <= r ==> ts[r].id == id && forall j :: 0 <= j < r ==> ts[j].id != id
    decreases |ts|
  {
    if ts == [] then -1
    else if ts[0].id == id then 0
    else
      var k := FirstIndex(ts[1..], id);
      if k == -1 then -1 else k + 1
  }

  /** Two task lists with the same ids position by position have the same first match. */
  lemma FirstIndexOnlyReadsIds(ts: seq<Task>, us: seq<Task>, id: string)
    requires |ts| == |us|
    requires forall j :: 0 <= j < |ts| ==> ts[j].id == us[j].id
    ensures FirstIndex(ts, id) == FirstIndex(us, id)
  {
    var a, b := FirstIndex(ts, id), FirstIndex(us, id);
    assert a != -1 ==> us[a].id == id;
    assert b != -1 ==> ts[b].id == id;
  }

  /** No two tasks share an id. The code never checks this; the model proves when it is kept. */
  predicate UniqueIds(ts: seq<Task>) {
    forall i, j :: 0 <= i < j < |ts| ==> ts[i].id != ts[j].id
  }

  /** No two projects share an id: the duplicate check keeps this. */
  predicate UniqueProjectIds(ps: seq<Project>) {
    forall i, j :: 0 <= i < j < |ps| ==> ps[i].id != ps[j].id
  }

  /** Some task has that id. */
  predicate HasTask(ts: seq<Task>, id: string) {
    exists i :: 0 <= i < |ts| && ts[i].id == id
  }

  /** `projects.some(p => p.id === id)`. */
  predicate HasProject(ps: seq<Project>, id: string) {
    exists i :: 0 <= i < |ps| && ps[i].id == id
  }
}
