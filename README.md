# TaskFlow task list — a Dafny model

TaskFlow is a single-page to-do app: one browser script keeps a list of tasks and a
list of projects, persists both in `localStorage`, and re-renders the page after every
command. This project models the part of `js/script.js` that decides what the lists
become and what the user is shown:

- the task commands: submit the task form (create or update), toggle completion,
  delete, clear completed, and import a JSON file;
- the project command: add a project whose id is derived from its name;
- the visible-task query: the project/status/search filter and the sort comparator;
- the statistics shown in the sidebar;
- `getFormattedDate`, the `YYYY-MM-DD` text of a local date.

Layout:

- `text.dfy` (module `Text`): ASCII `trim`, `toLowerCase`, `includes` and string
  order.
- `seqs.dfy` (module `Seqs`): `Array.prototype.filter` on sequences.
- `dates.dfy` (module `Dates`): `getFormattedDate`. It proves that comparing two
  formatted dates as text is the same as comparing the dates.
- `tasks.dfy` (module `Tasks`): the task and project records, the built-in projects,
  and `findIndex` by id.
- `query.dfy` (module `Query`): the filter and sort of `renderTasks`.
- `commands.dfy` (module `Commands`): each command handler as a function from the old
  lists (plus the browser's inputs) to the new ones, with the properties each keeps.
- `store.dfy` (module `Store`): the class `TaskStore`. It holds the two lists as
  fields. Its methods do the handlers' updates in place: an index assignment, a push,
  or a reassignment by a filtered list. Each method's new state is proved equal to the
  matching function of `Commands`.

The inputs that come from the browser are parameters:

- the form fields;
- the answer to `confirm`;
- the id `generateId` would produce;
- the current time as an ISO string, and today's date;
- the parsed import file.

Some points to know when reading the model:

- The due date is the text of the date input; `""` means no due date.
- The comparator orders two due dates as text. Its JavaScript version parses them with
  `new Date` and compares the times. `Dates.FormatDateOrder` shows that for well-formed
  `YYYY-MM-DD` dates the two orders agree.
- The comparator is not a consistent order. An undated task can sit between two dated
  ones in a cycle (`Query.CmpCanCycle`), so the browser's sort may return any
  arrangement; for such a comparator JavaScript only guarantees a permutation. The
  browser's algorithm is not modelled. For its own stable insertion sort the model
  proves:
  - the result is a permutation of the filtered tasks;
  - neighbouring tasks are in comparator order;
  - every incomplete task comes before every completed one.
  When all the tasks have a due date, or none has, the result is fully sorted.
- The code never checks that task ids are unique. Submitting, toggling, deleting and
  clearing keep ids unique when they were unique before; for submitting this also needs
  a created task to get an id not already in use. Importing does not keep them unique:
  a file that lists the same valid task twice gives two tasks with one id
  (`Commands.ImportCanDuplicateIds`).

## Model

| member | source | states |
|---|---|---|
| Text.Trim | js/script.js:358-359 | `trim()` gives a text that neither starts nor ends with whitespace and is empty exactly when the input is all whitespace |
| Text.TrimPadded | js/script.js:358-359 | what `trim()` drops is a whitespace-only prefix and a whitespace-only suffix: the result sits in the input between them |
| Text.Lower | js/script.js:182-184 | `toLowerCase()` keeps the length and leaves no upper-case letter. It turns each upper-case letter into the lower-case letter at the same place in the alphabet and keeps every other character, so whitespace stays where it was |
| Text.Contains | js/script.js:183-184 | `includes(term)` holds for the empty term and for a term the text starts with, and never for a term longer than the text |
| Text.ContainsIffOccurs | js/script.js:183-184 | `includes(term)` holds exactly when the term occurs at some position of the text |
| Seqs.Filter | js/script.js:158 | `filter` keeps exactly the elements that pass, in their original order |
| Seqs.FilterMultiset | js/script.js:158 | `filter` keeps each passing element as often as it occurs, and no other element |
| Seqs.FilterAllPass | js/script.js:403 | filtering a list all of whose elements pass gives the list back |
| Tasks.FirstIndex | js/script.js:374 | `findIndex` by id is -1 exactly when no task has the id, and otherwise the first position holding it |
| Tasks.FirstIndexOnlyReadsIds | js/script.js:374 | two lists with the same ids position by position give the same `findIndex` |
| Dates.Decimal | js/script.js:566-567 | `String(n)` is digits that denote `n`, with no leading zero; `String(0)` is `"0"` |
| Dates.FormatDate | js/script.js:564-569 | a valid date is written as ten characters `YYYY-MM-DD`: digits with hyphens at positions 4 and 7 |
| Dates.PadTwo | js/script.js:566-567 | `padStart(2, '0')` gives two characters for a shorter input and leaves a longer one as it is |
| Dates.PadTwoZeros | js/script.js:566-567 | the padded text ends with the input and has only `0` characters before it |
| Dates.PadTwoDecimal | js/script.js:566-567 | `padStart(2, '0')` of a number below 100 is its two decimal digits |
| Dates.FormatDateOrder | js/script.js:564-569 | for valid dates, one formatted date is less than the other as text exactly when its date is earlier, and the texts are equal exactly when the dates are |
| Query.Matches | js/script.js:158-188 | a task passes exactly when it passes every active test: the project, the pending/completed/today status, and for a non-blank search a case-insensitive match in the title or the description. With every filter at its default, every task passes |
| Query.Selected | js/script.js:158-188 | the filtered tasks are a subsequence of the list, holding exactly the tasks that pass every filter test, each as often as in the list |
| Query.VisibleExactly | js/script.js:158-188 | a task is shown exactly when it is in the list and passes the project, pending/completed/today and search tests |
| Query.Rank | js/script.js:227 | `priorityOrder` gives 0 exactly for high and 2 exactly for low, with medium in between |
| Query.Cmp | js/script.js:214-229 | the comparator is negative for an incomplete task against a completed one. It is zero exactly when both tasks have the same completion and priority and do not have two different due dates |
| Query.CmpAntisymmetric | js/script.js:214-229 | swapping the two tasks flips the comparator's sign |
| Query.IncompleteBeforeCompleted | js/script.js:215-217 | an incomplete task compares before a completed one |
| Query.EarlierDueDateFirst | js/script.js:219-225 | with equal completion and two different due dates, the earlier date comes first |
| Query.PriorityDecidesOtherwise | js/script.js:227-228 | with equal completion and no two different due dates, the task with the higher priority comes first |
| Query.CmpCanCycle | js/script.js:214-229 | three tasks exist that the comparator orders in a cycle, so it is not transitive |
| Query.CmpTransitive | js/script.js:214-229 | on tasks that are all dated, or all undated, the comparator is transitive |
| Query.Insert | js/script.js:214 | one insertion step of the sort adds exactly the one task |
| Query.InsertKeepsOrder | js/script.js:214-229 | inserting into a list whose neighbours are in comparator order keeps them in order |
| Query.SortTasks | js/script.js:214-229 | the sort returns a permutation of its input |
| Query.SortTasksOrdered | js/script.js:214-229 | the sorted list has its neighbours in comparator order |
| Query.AdjacentIncompleteFirst | js/script.js:215-217 | neighbour order already puts every incomplete task before every completed one |
| Query.AdjacentSorted | js/script.js:214-229 | on tasks that are all dated or all undated, neighbour order is full pairwise order |
| Query.SortedWhenUniformlyDated | js/script.js:214-229 | when every task to sort has a due date, or none has, every pair of the sorted list is in comparator order |
| Query.Visible | js/script.js:156-229 | the shown list is a permutation of the filtered tasks, holds exactly the tasks that pass the filter, lists incomplete tasks first and has neighbours in comparator order |
| Commands.FormTask | js/script.js:356-365 | `taskData` has the form's id when editing and the fresh id otherwise. Its title and description are trimmed, and the title is empty exactly when the form's title is blank. The other fields are copied from the form. The creation time is that of the edited task when it has one, and the current time otherwise |
| Commands.AfterSubmit | js/script.js:352-386 | a blank title changes nothing. Creating appends exactly the `taskData` task, with the fresh id, the current time and the trimmed title. Updating never changes the length or an id. An unknown id changes nothing. A known id replaces only the first task with it, keeping that task's creation time |
| Commands.SubmitKeepsIdsUnique | js/script.js:352-386 | submitting keeps ids unique, given that a created task's id is not already in use |
| Commands.AppendFreshTask | js/script.js:380 | pushing a task whose id is not in use keeps ids unique |
| Commands.Toggled | js/script.js:388-395 | toggling flips `completed` on the first task with the id and changes nothing else; an unknown id changes nothing; unique ids stay unique |
| Commands.ToggleTwice | js/script.js:388-395 | toggling the same id twice restores the list |
| Commands.Without | js/script.js:401-407 | deleting keeps exactly the tasks with another id, as often as before and in order; an absent id changes nothing; unique ids stay unique |
| Commands.Incomplete | js/script.js:409-415 | clearing keeps exactly the incomplete tasks, as often as before and in order; unique ids stay unique |
| Commands.FilterKeepsIdsUnique | js/script.js:403 | filtering a list whose ids are unique leaves them unique |
| Commands.CompletedCount | js/script.js:490 | the completed count is at most the number of tasks, and is 0 exactly when no task is completed |
| Commands.CountsAddUp | js/script.js:489-491 | the completed and the pending counts add up to the total |
| Commands.Percent | js/script.js:492 | the progress is 0 for no tasks, at most 100, and within half a point of the exact percentage |
| Commands.PercentNone | js/script.js:492 | no completed task is 0% |
| Commands.PercentAll | js/script.js:492 | all tasks completed is 100% |
| Commands.ComputeStats | js/script.js:488-492 | the total is the list's length, completed plus pending is the total, and the progress is the rounded percentage |
| Commands.NoneCompleted | js/script.js:490 | a list with no completed task has completed count 0 and keeps all of its tasks when cleared |
| Commands.ClearedStats | js/script.js:409-415 | after clearing, the statistics show no completed task and 0% |
| Commands.Retained | js/script.js:531-533 | every kept task has a non-empty id and title, and no more tasks are kept than elements read |
| Commands.RetainedAreValidElements | js/script.js:531-533 | the kept tasks, written back out, are exactly the elements with a truthy id, a truthy title and a boolean `completed`, in order |
| Commands.PlanImport | js/script.js:527-550 | an unparsable file or a `null` element is a read error. A non-array is an invalid format. No valid element means no valid tasks. An array with no `null` and some valid element gives the non-empty list of valid tasks |
| Commands.AfterImport | js/script.js:535-540 | the list is replaced by the valid tasks exactly when the import succeeds and is confirmed; otherwise nothing changes |
| Commands.ImportCanDuplicateIds | js/script.js:531-537 | a file that lists the same valid object twice replaces the list by two tasks with one id |
| Commands.Export | js/script.js:505 | `JSON.stringify(tasks)` writes one object per task, in order, each carrying all of that task's fields |
| Commands.ExportImportRoundTrip | js/script.js:504-541 | importing an exported non-empty list whose tasks all have an id and a title gives the same list back |
| Commands.HyphenateWhitespace | js/script.js:457 | `replace(/\s+/g, '-')` never lengthens the text and gives the empty text only for the empty text |
| Commands.HyphenatedHasNoWhitespace | js/script.js:457 | `replace(/\s+/g, '-')` leaves no whitespace |
| Commands.HyphenateWithoutWhitespace | js/script.js:457 | a name without whitespace is left as it is by the replacement |
| Commands.HyphenateKeepsNoUpper | js/script.js:457 | the replacement adds no upper-case letter |
| Commands.HyphenatePrefix | js/script.js:457 | a whitespace-free prefix passes through the replacement unchanged |
| Commands.Slug | js/script.js:457 | the project id has no whitespace and no upper-case letter, is no longer than the name, is empty only for an empty name, and is the lower-cased name when the name has no whitespace |
| Commands.SkipRun | js/script.js:457 | skipping the leading whitespace of a whitespace run lands on the character after the run |
| Commands.HyphenateRun | js/script.js:457 | a whole whitespace run, however long, becomes exactly one hyphen |
| Commands.SlugRun | js/script.js:457 | the id of a word, a whitespace run and the rest is the lower-cased word, one hyphen, and the id of the rest |
| Commands.SlugTwoWords | js/script.js:457 | two words separated by one blank give the lower-cased words joined by a hyphen |
| Commands.DoubleBlankSlug | js/script.js:457 | two blanks give one hyphen, as one blank does: "a  b" gets the id "a-b" |
| Commands.SlugIdempotent | js/script.js:457 | deriving an id from an id gives the same id |
| Commands.HomeStuffSlug | js/script.js:457 | the name "Home Stuff" gets the id "home-stuff" |
| Commands.AddProject | js/script.js:445-473 | a blank name is refused and so is a name whose id is taken. Otherwise one project is appended with the derived id, the trimmed name, the chosen colour and the `fa-folder` icon; its id is non-empty and has no whitespace, and project ids stay unique |
| Commands.AppendFreshId | js/script.js:460-473 | appending a project whose id is not yet in the list keeps project ids unique |
| Store.TaskStore.constructor | js/script.js:33-39 | the lists start as stored, or as no tasks and the four built-in projects |
| Store.TaskStore.IndexOf | js/script.js:374 | the scan returns the position `findIndex` gives |
| Store.TaskStore.ProjectExists | js/script.js:460 | the scan reports whether some project has the id |
| Store.TaskStore.FormData | js/script.js:356-365 | builds the `taskData` task that `FormTask` describes, finding the edited task by a scan |
| Store.TaskStore.SubmitTask | js/script.js:352-386 | the task list becomes `AfterSubmit` of the old one and projects are untouched. The title-required alert comes exactly for a blank title. Unique ids stay unique when a created task's id is fresh |
| Store.TaskStore.ToggleCompletion | js/script.js:388-395 | the task list becomes `Toggled` of the old one; projects are untouched; unique ids stay unique |
| Store.TaskStore.DeleteTask | js/script.js:401-407 | on confirmation the task list becomes `Without` of the old one, otherwise it is unchanged; unique ids stay unique |
| Store.TaskStore.ClearCompleted | js/script.js:409-415 | on confirmation the task list becomes `Incomplete` of the old one, otherwise it is unchanged; unique ids stay unique |
| Store.TaskStore.SubmitProject | js/script.js:445-473 | the project list becomes the `AddProject` result, or is unchanged and the refusal is reported; tasks are untouched; unique project ids stay unique |
| Store.TaskStore.ImportTasks | js/script.js:516-556 | the task list becomes `AfterImport` of the old one, so a confirmed successful import replaces it by the valid tasks. The outcome is the import error, or the number of valid tasks with whether they were imported or declined |

## Left out

- Rendering, modals, alerts, event wiring and `localStorage` writes are left out. The
  model covers what the lists become, and which message or confirmation the user gets.
- The sample tasks `loadTasks` creates when the stored list is empty are left out:
  their ids and dates come from `generateId` and the clock.
- `generateId`, `new Date()` and `toISOString()` are left out. Their results are
  parameters (`freshId`, `now`, `View.today`).
- The file picker and `FileReader` are left out. The import handler receives the parsed
  file as a `Payload`. Non-string `id`/`title` values, and the other JavaScript values
  a field can hold, are not modelled: a field is a string, and "truthy" means non-empty.
- A priority other than high, medium or low is not modelled. With one, the comparator
  returns `NaN`.
- Query.Cmp: due dates are ordered as text, not parsed with `new Date`. The two orders
  agree only for well-formed `YYYY-MM-DD` dates (Dates.FormatDateOrder). Malformed due
  dates, which would compare as `NaN`, are not modelled.
- Query.SortTasks: the browser's sort algorithm is not specified and the comparator is
  inconsistent, so the model uses a stable insertion sort. The result can differ from
  the browser's when dated and undated tasks are mixed. Stability is not proved.
- Text.Trim, Text.Lower, Commands.Slug: ASCII only. `trim`, `\s` and `toLowerCase`
  also handle Unicode whitespace and letters, which the model does not.
- Commands.Percent: `Math.round` on a floating-point quotient is modelled as exact
  rounding half up, `(200 * completed + total) div (2 * total)`. Floating-point error
  is not modelled.
- `exportTasks` is modelled only as the list of JSON objects it writes
  (Commands.Export). The pretty-printing, the data URI and the download file name are
  left out.
- `renderProjects`, the extra `<option>` element added after a project is created, and
  the active-project and status radio state are not modelled. They are view state; the
  query takes them as the `View` parameter.
- The empty-state message of `renderTasks` is left out. The model only shows that an
  empty selection yields an empty list.
- `escapeHtml`, `createTaskElement` and `openTaskModal` are presentation code.
