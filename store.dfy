/** The app's two mutable lists and the handlers that change them in place. Each
    handler's new state is the corresponding function of commands.dfy applied to the
    old state; browser inputs (form fields, the confirm answer, a fresh id, the current
    time, the parsed import file) are parameters. */
module Store {
  import opened Text
  import opened Tasks
  import opened Commands

  /** What the user sees after submitting the task form. */
  datatype SubmitOutcome = TitleRequired | Saved

  /** What the user sees after choosing a file to import. */
  datatype ImportOutcome = ImportFailed(error: ImportError) | Declined(count: nat) | Imported(count: nat)

  class TaskStore {
    var tasks: seq<Task>
    var projects: seq<Project>

    /** The state at page load: the stored lists, or no tasks and the built-in projects. */
    constructor(storedTasks: Option<seq<Task>>, storedProjects: Option<seq<Project>>)
      ensures tasks == if storedTasks.Some? then storedTasks.value else []
      ensures projects == if storedProjects.Some? then storedProjects.value else DefaultProjects
    {
      tasks := if storedTasks.Some? then storedTasks.value else [];
      projects := if storedProjects.Some? then storedProjects.value else DefaultProjects;
    }

    /** `tasks.findIndex(t => t.id === id)`, scanning from the front. */
    method IndexOf(id: string) returns (index: int)
      ensures index == FirstIndex(tasks, id)
    {
      index := 0;
      while index < |tasks|
        invariant 0 <= index <= |tasks|
        invariant forall j :: 0 <= j < index ==> tasks[j].id != id
      {
        if tasks[index].id == id {
          return;
        }
        index := index + 1;
      }
      index := -1;
    }

    /** `projects.some(p => p.id === id)`. */
    method ProjectExists(id: string) returns (found: bool)
      ensures found == HasProject(projects, id)
    {
      var k := 0;
      while k < |projects|
        invariant 0 <= k <= |projects|
        invariant forall j :: 0 <= j < k ==> projects[j].id != id
      {
        if projects[k].id == id {
          return true;
        }
        k := k + 1;
      }
      return false;
    }

    /** The `taskData` object of `handleTaskSubmit`, looking up the edited task's
        creation time. */
    method FormData(form: TaskForm, freshId: string, now: string) returns (data: Task)
      ensures data == FormTask(tasks, form, freshId, now)
    {
      var createdAt := now;
      if form.taskId != "" {
        var found := IndexOf(form.taskId);
        if found != -1 && tasks[found].createdAt != "" {
          createdAt := tasks[found].createdAt;
        }
      }
      data := Task(if form.taskId != "" then form.taskId else freshId,
                   Trim(form.title), Trim(form.description), form.dueDate,
                   form.priority, form.project, form.completed, createdAt);
    }

    /** `handleTaskSubmit`: refuses a blank title, otherwise replaces the edited task in
        place or appends the new one. */
    method SubmitTask(form: TaskForm, freshId: string, now: string) returns (outcome: SubmitOutcome)
      modifies this
      ensures tasks == AfterSubmit(old(tasks), form, freshId, now)
      ensures projects == old(projects)
      ensures outcome == TitleRequired <==> AllWhitespace(form.title)
      ensures outcome == TitleRequired ==> tasks == old(tasks)
      ensures old(UniqueIds(tasks)) && (form.taskId == "" ==> !HasTask(old(tasks), freshId)) ==> UniqueIds(tasks)
    {
      if UniqueIds(tasks) && (form.taskId == "" ==> !HasTask(tasks, freshId)) {
        SubmitKeepsIdsUnique(tasks, form, freshId, now);
      }
      var data := FormData(form, freshId, now);
      ghost var expected := AfterSubmit(tasks, form, freshId, now);
      if data.title == "" {
        assert expected == tasks;
        return TitleRequired;
      }
      if form.taskId != "" {
        var index := IndexOf(form.taskId);
        if index != -1 {
          assert expected == tasks[index := data];
          tasks := tasks[index := data];
        }
      } else {
        assert expected == tasks + [data];
        tasks := tasks + [data];
      }
      outcome := Saved;
    }

    /** `toggleTaskCompletion`: flips `completed` on the first task with that id. */
    method ToggleCompletion(id: string)
      modifies this
      ensures tasks == Toggled(old(tasks), id)
      ensures projects == old(projects)
      ensures old(UniqueIds(tasks)) ==> UniqueIds(tasks)
    {
      var index := IndexOf(id);
      if index != -1 {
        tasks := tasks[index := tasks[index].(completed := !tasks[index].completed)];
      }
    }

    /** `deleteTask`: on confirmation, drops every task with that id. */
    method DeleteTask(id: string, confirmed: bool)
      modifies this
      ensures tasks == if confirmed then Without(old(tasks), id) else old(tasks)
      ensures projects == old(projects)
      ensures old(UniqueIds(tasks)) ==> UniqueIds(tasks)
    {
      if confirmed {
        tasks := Without(tasks, id);
      }
    }

    /** `clearCompletedTasks`: on confirmation, keeps only the incomplete tasks. */
    method ClearCompleted(confirmed: bool)
      modifies this
      ensures tasks == if confirmed then Incomplete(old(tasks)) else old(tasks)
      ensures projects == old(projects)
      ensures old(UniqueIds(tasks)) ==> UniqueIds(tasks)
    {
      if confirmed {
        tasks := Incomplete(tasks);
      }
    }

    /** `handleProjectSubmit`: appends a project named by the trimmed name unless the name
        is blank or its id is taken; returns the refusal, if any. */
    method SubmitProject(name: string, color: string) returns (refusal: Option<ProjectError>)
      modifies this
      ensures tasks == old(tasks)
      ensures AddProject(old(projects), name, color).Success? ==>
                refusal == None && projects == AddProject(old(projects), name, color).value
      ensures AddProject(old(projects), name, color).Failure? ==>
                refusal == Some(AddProject(old(projects), name, color).error) && projects == old(projects)
      ensures old(UniqueProjectIds(projects)) ==> UniqueProjectIds(projects)
    {
      var projectName := Trim(name);
      if projectName == "" {
        return Some(NameRequired);
      }
      var projectId := Slug(projectName);
      var taken := ProjectExists(projectId);
      if taken {
        return Some(DuplicateProject);
      }
      projects := projects + [Project(projectId, projectName, color, "fa-folder")];
      refusal := None;
    }

    /** The import handler: reports a read or format error, or no valid task; otherwise
        asks for confirmation and, when given, replaces the task list by the valid tasks. */
    method ImportTasks(payload: Payload, confirmed: bool) returns (outcome: ImportOutcome)
      modifies this
      ensures tasks == AfterImport(old(tasks), payload, confirmed)
      ensures projects == old(projects)
      ensures PlanImport(payload).Failure? ==> outcome == ImportFailed(PlanImport(payload).error)
      ensures PlanImport(payload).Success? ==>
                var n := |PlanImport(payload).value|;
                outcome == if confirmed then Imported(n) else Declined(n)
    {
      match payload {
        case Unparsable =>
          return ImportFailed(ReadFailed);
        case NotArray =>
          return ImportFailed(InvalidFormat);
        case JsonArray(items) =>
          if JsonNull in items {
            return ImportFailed(ReadFailed);
          }
          var validTasks := Retained(items);
          if |validTasks| == 0 {
            return ImportFailed(NoValidTasks);
          }
          if confirmed {
            tasks := validTasks;
            return Imported(|validTasks|);
          }
          return Declined(|validTasks|);
      }
    }
  }
}
