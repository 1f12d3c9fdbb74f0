# WorkSync task/project consistency model in Dafny

WorkSync is a project and task manager. Its logic is implemented three times:

- the Mongoose documents of the Node backend (`Task`, `Project`);
- the JPA `Project` entity of the Java backend;
- the browser managers: the task table, the kanban board, the project list and the dashboard.

This project models those three implementations as pure functions over immutable records and proves the promises they make:

- a task is COMPLETED exactly when it carries a completion time, and every surface that changes a status keeps this coupling;
- progress percentages lie in 0..100, and the Java floor formula trails the JavaScript rounding by at most one;
- access checks are downward closed in the role hierarchy;
- filters return sub-sequences that hold exactly the matching records, and each sort key produces its ordering;
- every operation says what it leaves unchanged.

Clocks, new ids, `localeCompare`, `toLowerCase` and `parseInt` are parameters.

Modules, one per file:

| file | module | models |
|---|---|---|
| `wrappers.dfy` | `Wrappers` | `Option`, `Result` |
| `seqs.dfy` | `Seqs` | `filter`, `find`/`findIndex`, counting, with their algebra |
| `text.dfy` | `Text` | `trim`, `split` on one character, `join`, `includes` |
| `sorting.dfy` | `Sorting` | `Array.prototype.sort` with a comparator, as a stable insertion sort |
| `percent.dfy` | `Percent` | `Math.round(part / whole * 100)` and Java's `(part * 100) / whole` |
| `model.dfy` | `Model` | the shared task record, statuses, priorities, the overdue rule |
| `task_document.dfy` | `TaskDocument` | the backend task document's hook, virtuals and methods |
| `project_document.dfy` | `ProjectDocument` | the backend project document's access, team and progress methods |
| `project_entity.dfy` | `ProjectEntity` | the Java project entity |
| `tasks_view.dfy` | `TasksView` | the browser's task table |
| `kanban.dfy` | `Kanban` | the browser's kanban board |
| `projects_view.dfy` | `ProjectsView` | the browser's project list |
| `dashboard.dfy` | `Dashboard` | the browser's dashboard |

Behaviour the proofs pin down that a reader might not expect:

- The pre-save hook only runs its rule when the status was modified. A document saved COMPLETED without a completion time stays uncoupled (`PreSaveKeepsUnmodifiedGap`).
- The browser's create path stores a task created as COMPLETED with no completion time. Its edit path keeps the old completion time whatever the new status. Both break the coupling that the toggle and the kanban move maintain.
- The table's toggle is not an involution: IN_PROGRESS toggled twice ends at NOT_STARTED.
- `startTimeTracking` does not look for an open log. Starting twice leaves two open logs, and `stopTimeTracking` closes only the first.
- `roles.indexOf` gives -1 for an unknown role name. An unknown required role therefore admits every team member, while a member holding an unknown role passes only that check.
- The JavaScript progress rounds: 2 of 3 tasks gives 67, and 199 of 200 already shows 100. The Java progress floors: 2 of 3 gives 66.
- A select left on its empty option, and a kanban column whose status attribute is empty, count as no choice: the empty string is falsy in JavaScript.
- Two theme flips restore "light" and "dark". A stored theme that is neither comes back as "dark".

## Model

| member | source | states |
|---|---|---|
| Percent.RoundPercent | server/models/Project.js:159 | the percentage rounded half up over exact rationals (what `Math.round` computes, barring binary rounding error) is the unique r with 2·whole·r ≤ 200·part + whole < 2·whole·(r+1); it never exceeds 100 |
| Percent.FloorPercent | src/main/java/com/worksync/model/Project.java:108 | the integer division is the unique r with whole·r ≤ 100·part < whole·(r+1); it is at most 100 and equals 100 exactly when part = whole |
| Percent.RoundEnds | server/models/Task.js:155 | nothing done rounds to 0 and everything done rounds to 100 |
| Percent.FloorAtMostRound | src/main/java/com/worksync/model/Project.java:104-108 | for the same counts the floor is at most the rounding and at least the rounding minus one |
| Percent.RoundMonotone | server/models/Project.js:159 | with the total fixed, more completed tasks never lower the rounded progress |
| Percent.TwoOfThree | src/main/java/com/worksync/model/Project.java:108 | 2 of 3 gives 66 by the floor and 67 by the rounding |
| Percent.RoundReachesHundred | server/models/Project.js:159 | the rounded progress is 100 exactly when 200·part ≥ 199·whole, so it shows 100 before every task is done (199 of 200) |
| Percent.RoundAboveFloor | src/main/java/com/worksync/model/Project.java:108 | the JavaScript rounding shows one more than the Java floor exactly when the remainder of `(completed * 100) / size` is at least half of size |
| Model.IsOverdue | server/models/Task.js:143-146 | never overdue without a due date or once completed; otherwise overdue exactly when the due date lies before now |
| TaskDocument.PreSave | server/models/Task.js:163-170 | only `completedAt` changes; an unmodified status leaves the task as it is; a modified status leaves the task coupled, keeping an existing completion time, stamping `now` on a completed task without one, and clearing it otherwise |
| TaskDocument.PreSaveIdempotent | server/models/Task.js:163-170 | a second save with the status marked modified changes nothing more |
| TaskDocument.PreSaveKeepsUnmodifiedGap | server/models/Task.js:164 | a COMPLETED task without a completion time stays uncoupled when its status is not modified |
| TaskDocument.CompletionPercentage | server/models/Task.js:149-156 | an empty checklist gives 100 for a completed task and 0 otherwise; a non-empty one gives the rounded share of ticked items, in 0..100, reaching 100 when all are ticked and 0 when none are |
| TaskDocument.AddChecklistItem | server/models/Task.js:183-186 | exactly one item is appended at the end, unticked, without a completion time, with the item text trimmed as the schema does; nothing else changes; the document handed to `save()` meets the schema's `required` on every item (Task.js:93-96) exactly when the old one did and the trimmed text is not empty |
| TaskDocument.AddChecklistItemKeepsCoupling | server/models/Task.js:92-103 | adding an item keeps every item's completion time coupled to its flag |
| TaskDocument.ToggleChecklistItem | server/models/Task.js:189-195 | an out-of-range index changes nothing; otherwise only item i changes, its flag flipped and its completion time present exactly when it is now ticked |
| TaskDocument.ToggleTwiceRestores | server/models/Task.js:189-193 | toggling the same coupled item twice restores its flag and the presence of its completion time; the checklist keeps its length and every other item |
| TaskDocument.ToggleKeepsCoupling | server/models/Task.js:190-193 | toggling keeps every item coupled |
| TaskDocument.StartTimeTracking | server/models/Task.js:198-205 | exactly one log is appended with that user, start `now` and no end; the user's open logs grow by one; nothing else changes |
| TaskDocument.StopTimeTracking | server/models/Task.js:208-218 | without an open log of the user nothing changes; otherwise only the user's first open log is closed at `now` |
| TaskDocument.TotalTimeSpent | server/models/Task.js:221-228 | the sum of end minus start over closed logs: 0 when every log is open, never negative when every closed log ends after it starts |
| TaskDocument.TotalAppend | server/models/Task.js:222-227 | the total of two runs of logs is the sum of their totals |
| TaskDocument.TotalUpdate | server/models/Task.js:222-227 | replacing one log changes the total by exactly the difference of the two logs' durations |
| TaskDocument.StartKeepsTotal | server/models/Task.js:223 | starting a log leaves the total unchanged, since open logs count nothing |
| TaskDocument.StopAddsElapsed | server/models/Task.js:213-215 | stopping adds exactly now minus the start of the closed log to the total and leaves one open log fewer |
| TaskDocument.DoubleStartKeepsBothOpen | server/models/Task.js:199-203 | starting twice without stopping leaves two open logs: no check for an already open one |
| ProjectDocument.HasAccess | server/models/Project.js:105-124 | the owner always passes; a user with no team entry fails; otherwise the first entry's role index must reach the required one |
| ProjectDocument.AccessDownwardClosed | server/models/Project.js:122-123 | whoever passes at one required role passes at every role ranked no higher |
| ProjectDocument.AdminPassesAll | server/models/Project.js:107-123 | a team admin passes every required role |
| ProjectDocument.UnknownRequiredRoleAdmitsMembers | server/models/Project.js:107-123 | a required role outside the list has index -1, which every team member reaches, whatever role their entry holds |
| ProjectDocument.AddTeamMember | server/models/Project.js:126-139 | an existing member's first entry gets the new role with length and every other entry unchanged; a new user is appended once; a role outside the schema enum (Project.js:32) leaves a team `save()` rejects, and a known role keeps a valid team valid |
| ProjectDocument.AddTeamMemberIdempotent | server/models/Project.js:127-136 | adding the same user with the same role twice gives the team of adding once |
| ProjectDocument.AddTeamMemberGrants | server/models/Project.js:126-136 | after adding, a non-owner passes exactly the required roles the granted role reaches |
| ProjectDocument.RemoveTeamMember | server/models/Project.js:141-148 | every entry of the user goes, every other entry stays with its multiplicity and in order |
| ProjectDocument.RemoveTeamMemberIdempotent | server/models/Project.js:143-145 | removing twice is removing once |
| ProjectDocument.RemoveTeamMemberRevokes | server/models/Project.js:143-145 | a removed non-owner fails every access check |
| ProjectDocument.CompletedWithinProject | server/models/Project.js:153-157 | the completed count never exceeds the project's task count |
| ProjectDocument.ProjectProgress | server/models/Project.js:150-161 | 0 for a project with no tasks, otherwise the rounded share of its completed tasks; always within 0..100 |
| ProjectDocument.UpdateProgress | server/models/Project.js:51-56 | only the progress field changes, and it stays within the schema's 0..100 |
| ProjectDocument.CompletingRaisesProgress | server/models/Project.js:153-159 | completing one of the project's tasks never lowers its progress |
| ProjectDocument.ReopeningLowersProgress | server/models/Project.js:153-159 | reopening one of the project's tasks never raises its progress |
| ProjectDocument.ProgressAfterUpdate | server/models/Project.js:151-159 | replacing a task of the project moves the progress in the direction of the new status |
| ProjectEntity.NewEntity | src/main/java/com/worksync/model/Project.java:32-59 | a new entity is ACTIVE with progress 0 and empty member, task and tag lists |
| ProjectEntity.NewEntityProgressIsCurrent | src/main/java/com/worksync/model/Project.java:98-109 | the progress a new entity starts with is what `updateProgress` computes for it |
| ProjectEntity.UpdateProgress | src/main/java/com/worksync/model/Project.java:98-109 | 0 for no tasks, otherwise the floored share of completed tasks, in 0..100 and equal to 100 exactly when every task is completed |
| ProjectEntity.FloorTrailsRound | src/main/java/com/worksync/model/Project.java:104-108 | on the same task list the Java progress is at most the backend's rounded progress and at most one below it |
| ProjectEntity.AnyMemberGrants | src/main/java/com/worksync/model/Project.java:118-120 | `anyMatch` holds exactly when some member entry has the user's id and a role ordinal reaching the required one |
| ProjectEntity.HasAccess | src/main/java/com/worksync/model/Project.java:111-121 | the owner always passes; anyone else passes exactly when some entry, not only the first, grants the required ordinal |
| ProjectEntity.AccessDownwardClosed | src/main/java/com/worksync/model/Project.java:118-120 | passing at one required ordinal implies passing at every lower one |
| TasksView.EditedTask | frontend/js/tasks.js:261-271 | the edit takes title, description, project, status, priority and due date from the form, and keeps id, creation date, assignee, completion time, checklist and logs |
| TasksView.NewTask | frontend/js/tasks.js:296-307 | a new task has the fresh id, today's creation date, the demo assignee, the form's fields and no completion time |
| TasksView.CreateTask | frontend/js/tasks.js:226-332 | an empty title, then a missing project, is refused with the source's message and no change; otherwise the new task is prepended and the rest keep their order, or the first task with the edited id is replaced and editing ends, or nothing changes when that id is gone; the displayed list becomes the whole list |
| TasksView.CreateCompletedIsUncoupled | frontend/js/tasks.js:296-309 | a task created as COMPLETED has no completion time |
| TasksView.EditCanBreakCoupling | frontend/js/tasks.js:261-271 | editing a coupled task into or out of COMPLETED leaves it uncoupled |
| TasksView.Toggled | frontend/js/tasks.js:362-368 | COMPLETED becomes NOT_STARTED without a completion time, any other status becomes COMPLETED stamped today; the result is coupled and nothing else changes |
| TasksView.ToggleTaskStatus | frontend/js/tasks.js:358-372 | an unknown id changes nothing; otherwise only the first task with the id is toggled |
| TasksView.ToggleKeepsAllCoupled | frontend/js/tasks.js:359-368 | toggling keeps a fully coupled list fully coupled |
| TasksView.ToggleTwiceFromInProgress | frontend/js/tasks.js:362-368 | IN_PROGRESS toggled twice ends at NOT_STARTED: the toggle is no involution |
| TasksView.ToggleTwiceRestoresEnds | frontend/js/tasks.js:362-368 | NOT_STARTED and COMPLETED come back after two toggles |
| TasksView.ToggleAndOverdue | frontend/js/tasks.js:468-471 | a task the toggle completes is not overdue; one it reopens is overdue exactly when its due date has passed |
| TasksView.DeleteTask | frontend/js/tasks.js:380-381 | both lists lose exactly the tasks with the id; every other task keeps its multiplicity and order in each list |
| TasksView.FilterTasks | frontend/js/tasks.js:390-428 | the result holds each task passing the search, status, priority and project tests as often as the list does, and nothing else |
| TasksView.EmptyFilterShowsAll | frontend/js/tasks.js:397-406 | an empty search with the status and priority selects missing or on their empty option shows every task |
| TasksView.DueDateSortOrder | frontend/js/tasks.js:418-423 | by due date, dated tasks ascend and every undated task comes after every dated one |
| TasksView.CreatedAtSortOrder | frontend/js/tasks.js:416-417 | by creation date, newest first |
| TasksView.PrioritySortOrder | frontend/js/tasks.js:413-415 | by priority, URGENT before HIGH before MEDIUM before LOW (the order within a priority is stated by TasksView.PrioritySortStable) |
| TasksView.PrioritySortStable | frontend/js/tasks.js:409-425 | the sort is stable on priority ties: for every weight, the passing tasks of that weight keep their list order; with unknown priorities this holds of the model's sort, see "## Left out" |
| Sorting.SortStable | frontend/js/tasks.js:409-425 | the comparator sort is stable: the members of any class of mutually tying elements keep their relative order in the model's insertion sort, see "## Left out" |
| TasksView.TitleSortOrder | frontend/js/tasks.js:411-412 | by title, in collation order |
| TasksView.GetTasksByStatus | frontend/js/tasks.js:482-484 | exactly the tasks with that status, with their multiplicity and in order |
| TasksView.GetTasksByProject | frontend/js/tasks.js:478-480 | exactly the tasks of that project, with their multiplicity and in order |
| Kanban.Column | frontend/js/kanban.js:108 | a column holds exactly the tasks with its status, each as often as the list does, in order |
| Kanban.ColumnMembership | frontend/js/kanban.js:97-108 | a task with one of the four statuses is in its own column only; a task with any other status is in none |
| Kanban.ColumnsPartition | frontend/js/kanban.js:97-101 | the four column sizes plus the unplaced tasks add up to the whole list |
| Kanban.Moved | frontend/js/kanban.js:205-212 | a moved task takes the new status, is stamped today when that is COMPLETED and cleared otherwise, and stays coupled |
| Kanban.SyncManager | frontend/js/kanban.js:214-221 | the manager's first entry with the id receives the same status and completion time; without one the manager is unchanged |
| Kanban.HandleTaskMove | frontend/js/kanban.js:196-225 | a missing or zero id, a missing or empty status, an unknown task or an unchanged status changes nothing; otherwise the first board task with the id moves, the manager is synced, and nothing else changes |
| Kanban.MoveKeepsAllCoupled | frontend/js/kanban.js:203-221 | a move keeps the board and the manager fully coupled |
| Kanban.MoveIdempotent | frontend/js/kanban.js:204 | dropping the same card on the same column again changes nothing more |
| Kanban.MovedToDoneNotOverdue | frontend/js/kanban.js:363-366 | a task moved to the done column is not overdue |
| Kanban.SelectProject | frontend/js/kanban.js:227-245 | the empty selection or "All Projects" shows the whole master list; otherwise exactly the tasks whose project id equals the parsed value, each as often as the master list holds it, in order |
| Kanban.UnparsableFilterShowsNothing | frontend/js/kanban.js:239-240 | a selection that parses to NaN shows no task |
| Kanban.DeleteTask | frontend/js/kanban.js:317-341 | the id leaves the board list and the master list, every other task keeping its multiplicity and order; the manager's two lists are cut exactly as the task table's own delete cuts them |
| Kanban.DeleteTaskIdempotent | frontend/js/kanban.js:323-333 | deleting the same task twice is deleting it once, on the board and in the manager |
| Kanban.PriorityClass | frontend/js/kanban.js:353-361 | URGENT and HIGH share the high class, LOW has its own class, MEDIUM and every unknown priority get the medium class (names inherited from `Object.prototype` are outside the model, see Left out) |
| Kanban.PriorityClassByWeight | frontend/js/kanban.js:353-361 | a known priority gets the high class exactly when it outweighs MEDIUM in the sort weights of tasks.js and the low class exactly when it weighs less; an unknown priority is drawn like MEDIUM (names inherited from `Object.prototype` excepted, see Left out) |
| ProjectsView.ParseTags | frontend/js/projects.js:197-198 | every parsed tag is non-empty, has no whitespace at either end and holds no comma |
| ProjectsView.ParseTagsJoin | frontend/js/projects.js:197-198 | clean tags typed with commas between them parse back to exactly those tags |
| ProjectsView.CreateProject | frontend/js/projects.js:190-234 | an empty name is refused with the source's message; otherwise the new project is prepended, ACTIVE at progress 0 with the form's fields, the parsed tags and today's creation and update dates; the rest keep their order |
| ProjectsView.DeleteProject | frontend/js/projects.js:331-346 | both lists lose exactly the projects with the id; every other project keeps its multiplicity and order in each list |
| ProjectsView.DeleteProjectIdempotent | frontend/js/projects.js:337-338 | deleting twice is deleting once |
| ProjectsView.FilterProjects | frontend/js/projects.js:348-379 | the result holds each project whose name, description or some tag contains the lowered search and whose status matches the filter, as often as the list does, and nothing else |
| ProjectsView.ProgressSortOrder | frontend/js/projects.js:368-369 | by progress, most advanced first |
| ProjectsView.UpdatedAtSortOrder | frontend/js/projects.js:370-371 | by last update, newest first |
| ProjectsView.CreatedAtSortOrder | frontend/js/projects.js:372-374 | by default, newest created first |
| ProjectsView.NameSortOrder | frontend/js/projects.js:366-367 | by name, in collation order |
| ProjectsView.ProgressColor | frontend/js/projects.js:430-434 | success at 80 or more, warning from 50 to 79, danger below 50 |
| ProjectsView.ProgressColorMonotone | frontend/js/projects.js:430-434 | more progress never gives a worse colour |
| ProjectsView.GetProjectById | frontend/js/projects.js:441-443 | nothing when no project has the id; otherwise the first project with it |
| ProjectsView.CreatedProjectFound | frontend/js/projects.js:441-443 | after a creation with a fresh id, the lookup finds the new project under that id and finds under every other id what it found before |
| Dashboard.DashboardStats | frontend/js/app.js:288-296 | the project card is the list length; the completed, pending and overdue cards are the numbers of positions holding a COMPLETED, a non-COMPLETED and an overdue task; completed plus pending is the task count and overdue never exceeds pending |
| Dashboard.StatusTally | frontend/js/app.js:313-322 | the keys start with the four known statuses and are distinct; every task's status is a key; each count is the number of tasks with that status; the counts add up to the number of tasks (statuses named like `Object.prototype` properties are outside the model, see Left out) |
| Dashboard.OccurrencesIsCount | frontend/js/app.js:320-322 | counting task by task, as the loop does, agrees with counting the whole list by status |
| Dashboard.RecentItems | frontend/js/app.js:400-403 | the recent projects and tasks are the first min(5, n) items of their lists |
| Dashboard.CreatedProjectIsRecent | frontend/js/app.js:400-403 | a project just created heads the recent projects, followed by those recent before, less the one pushed off the end |
| Dashboard.StatusColor | frontend/js/app.js:445-455 | each known spelling gets its colour and every other string gets "secondary" (names inherited from `Object.prototype` are outside the model, see Left out) |
| Dashboard.SharedSpellingsShareColours | frontend/js/app.js:445-455 | completed and on-hold tasks are coloured like completed and on-hold projects |
| Dashboard.ToggleTheme | frontend/js/app.js:31-35 | the result is "light" or "dark", and "dark" exactly when the theme was "light" |
| Dashboard.ToggleThemeTwice | frontend/js/app.js:31-35 | two flips restore "light" and "dark"; any other stored value becomes "dark" |

## Left out

- Rendering, bootstrap modals, Chart.js drawing, Sortable drag wiring, `confirm`, event listeners, toasts and `localStorage` are not modelled. They are display and I/O. `confirm` is taken as answered yes.
- Persistence is not modelled: mongoose `save()`, `countDocuments`, indexes, the overdue and due-soon queries, JPA lifecycle hooks. The save hook is a function of the task and of whether its status was modified. Backend progress is a pure function of the project's task list.
- The `weekly progress` chart's date bucketing, `server/utils/email.js`, and the Java `User` and `UserPreferences` entities are not modelled: they hold no consistency logic.
- Dates are integers. ISO date strings, `Date` objects and the millisecond difference `new Date(b) - new Date(a)` become integer arithmetic. Invalid dates, which give NaN, are not modelled.
- Floating point is not modelled. `Math.round((c / t) * 100)` is computed over exact rationals, so binary rounding error in the division is ignored. It shows where the product lands just below a half: in IEEE double arithmetic 23 / 40 · 100 is 57.49999999999999, which `Math.round` takes to 57, while Percent.RoundPercent gives 58; with at most 200 tasks the other such counts are 46 of 80, 69 of 120, 92 of 160 and 29, 57, 113 and 115 of 200, each rounding one lower in the source than in the model.
- Object aliasing between lists is not modelled. In the browser the board, the master list and the manager's two lists share task objects, so one in-place edit shows in every list. The model updates exactly the lists the source assigns or searches explicitly.
- Percent.RoundPercent, ProjectDocument.ProjectProgress and TaskDocument.CompletionPercentage: the `(int)` cast and Java `long` width, like JavaScript's 53-bit integers, are not modelled. No realistic task count reaches them.
- The browser stores a task's project as an object `{id, name}`, and a form value whose `parseInt` is NaN or 0 and matches no project falls back (`numericProjectId || taskData.projectId`) to the raw string as the id. The model keeps only an integer project id.
- Backend ids are compared with `toString()`. The model compares integer ids.
- `localeCompare`, `toLowerCase` and `parseInt` are parameters. The ordering lemmas for title and name sorts assume the collation is a total preorder.
- TaskDocument.AddChecklistItem and ProjectDocument.AddTeamMember: `save()` itself is not modelled. Its rejection of a document that breaks the schema is stated as a predicate over the document handed to it (TaskDocument.ItemsPresent for the checklist's `required`, ProjectDocument.RolesKnown for the role `enum`); the model still returns that document rather than a rejected promise.
- TasksView.PrioritySortOrder: requires every task to have a known priority. With an unknown one the comparator returns NaN, read as "equal", which is not a consistent ordering, so ECMAScript leaves the order to the implementation.
- TasksView.PrioritySortStable: stability is proved for the model's insertion sort on every input. The source guarantees it only when every passing task has a known priority: with an unknown one the comparator returns NaN, ECMAScript leaves the order to the implementation, and V8's binary insertion can put a later HIGH task before an earlier one.
- Sorting.SortStable: proves stability of the model's insertion sort for any comparator under which the tie class ties. `Array.prototype.sort` promises stability only for a consistent comparator; for an inconsistent one the browser's order may differ from the model's.
- ProjectsView.ParseTags: its own contract states only that every tag is clean. The exact result is pinned down by ProjectsView.ParseTagsJoin for lists of clean tags, not for arbitrary input.
- Kanban.PriorityClass: a priority named like a property of `Object.prototype` ("constructor", "toString", …) looks up the inherited function in the class object, which is truthy, so the source uses that function as the class. The model draws such a priority like MEDIUM, as for any other unknown name.
- Kanban.PriorityClassByWeight: its clause that an unknown priority is drawn like MEDIUM inherits the same gap for names of `Object.prototype` properties.
- Dashboard.StatusColor: a status named like a property of `Object.prototype` gets the inherited function from the colour object in the source, not "secondary" as in the model.
- Dashboard.StatusTally: a status named like a property of `Object.prototype` is outside the model. "__proto__" is never stored as a key, so that task is missing from the tally; "constructor" starts from the inherited function and its count becomes a string. The model counts both like any other status.
- Model: an `Other…` constructor is assumed never to hold a known spelling. The source compares strings, so a value such as `OtherStatus("COMPLETED")` would behave as COMPLETED there, while the model's datatype equality keeps it apart; parsing a known spelling always yields the named constructor.
- Dashboard.StatusTally: keys are kept in insertion order. A status spelled like an array index would be enumerated first by `Object.values`; the model does not reorder it.
- The kanban board's `updateFromTasksManager`, `refreshBoard` and `editTask` are not modelled. Nor are the per-view `getStatusColor` maps of `kanban.js` and `projects.js`: they are display lookups of the same shape as the dashboard's.
- New ids come from `Date.now()` and are a parameter. Two creations within one millisecond would collide; the model does not rule this out.
