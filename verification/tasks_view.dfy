/** The browser's task table (frontend/js/tasks.js): creating and editing
    from the form, the status toggle, deletion, and the filter-and-sort that
    produces the displayed list. `today` and `newId` stand for the clock
    readings the browser takes (`new Date()` and `Date.now()`); `lower` for
    `toLowerCase` and `collate` for `localeCompare`. */
module TasksView {
  import opened Wrappers
  import opened Model
  import Seqs
  import Sorting
  import Text

  /** The manager's state: the master list, the displayed list and the id
      of the task the form is editing. */
  datatype TasksManager = TasksManager(tasks: seq<Task>, filteredTasks: seq<Task>, editingTaskId: Option<int>)

  /** The form as read by `createTask`; `projectId` is `None` when no
      project is selected and `dueDate` when the date field is empty. */
  datatype TaskForm = TaskForm(
    title: string,
    description: string,
    projectId: Option<int>,
    priority: Priority,
    status: Status,
    dueDate: Option<int>)

  /** New tasks are assigned to the built-in demo user. */
  const DemoUserId := 1

  /** `if (this.editingTaskId)`: JavaScript truthiness, so an id of 0 reads
      as "not editing". */
  predicate Editing(m: TasksManager) {
    m.editingTaskId.Some? && m.editingTaskId.value != 0
  }

  /** The edit branch's object spread: the form's fields replace title,
      description, project, status, priority and due date; everything else,
      `completedAt` included, is kept. */
  function EditedTask(t: Task, f: TaskForm): (r: Task)
    ensures r.id == t.id && r.createdAt == t.createdAt && r.assignedTo == t.assignedTo
    ensures r.completedAt == t.completedAt && r.checklist == t.checklist && r.timeLogs == t.timeLogs
    ensures r.title == f.title && r.description == Some(f.description) && r.projectId == f.projectId
    ensures r.status == f.status && r.priority == f.priority && r.dueDate == f.dueDate
  {
    t.(title := f.title, description := Some(f.description), projectId := f.projectId,
       status := f.status, priority := f.priority, dueDate := f.dueDate)
  }

  /** The record the create branch builds: no completion time, whatever the
      status chosen in the form. */
  function NewTask(f: TaskForm, newId: int, today: int): (r: Task)
    ensures r.id == newId && r.createdAt == today && r.assignedTo == Some(DemoUserId)
    ensures r.completedAt.None? && r.checklist == [] && r.timeLogs == []
    ensures r.title == f.title && r.description == Some(f.description) && r.projectId == f.projectId
    ensures r.status == f.status && r.priority == f.priority && r.dueDate == f.dueDate
  {
    Task(newId, f.title, Some(f.description), f.projectId, f.status, f.priority,
         Some(DemoUserId), f.dueDate, None, today, [], [])
  }

  /** `createTask`. An empty title or no selected project is refused with
      the source's message and no change. Otherwise, when not editing, the
      new task goes to the front of the list; when editing, the first task
      with the edited id is rewritten in place and editing ends; an edited
      id no longer present leaves the state as it was. Either way the
      displayed list becomes the whole list. */
  function CreateTask(m: TasksManager, f: TaskForm, newId: int, today: int): (r: Result<TasksManager>)
    ensures f.title == "" ==> r == Err("Task title is required")
    ensures f.title != "" && f.projectId.None? ==> r == Err("Please select a project")
    ensures r.Ok? <==> f.title != "" && f.projectId.Some?
    ensures r.Ok? && !Editing(m) ==>
      && |r.value.tasks| == |m.tasks| + 1
      && r.value.tasks[1..] == m.tasks
      && r.value.tasks[0] == NewTask(f, newId, today)
      && r.value.filteredTasks == r.value.tasks
      && r.value.editingTaskId == m.editingTaskId
    ensures r.Ok? && Editing(m) && Seqs.NoneMatch(m.tasks, HasId(m.editingTaskId.value)) ==> r.value == m
    ensures forall k :: r.Ok? && Editing(m) && Seqs.IsFirst(m.tasks, HasId(m.editingTaskId.value), k) ==>
      && r.value.tasks == m.tasks[k := EditedTask(m.tasks[k], f)]
      && r.value.filteredTasks == r.value.tasks
      && r.value.editingTaskId.None?
  {
    if f.title == "" then Err("Task title is required")
    else if f.projectId.None? then Err("Please select a project")
    else if Editing(m) then
      match Seqs.FindFirst(m.tasks, HasId(m.editingTaskId.value))
      case None => Ok(m)
      case Some(k) =>
        var tasks := m.tasks[k := EditedTask(m.tasks[k], f)];
        Ok(TasksManager(tasks, tasks, None))
    else
      var tasks := [NewTask(f, newId, today)] + m.tasks;
      Ok(TasksManager(tasks, tasks, m.editingTaskId))
  }

  /** Creating with the status COMPLETED stores a completed task with no
      completion time: the create path does not maintain the coupling. */
  lemma CreateCompletedIsUncoupled(m: TasksManager, f: TaskForm, newId: int, today: int)
    requires f.title != "" && f.projectId.Some? && !Editing(m) && f.status == Completed
    ensures !Coupled(CreateTask(m, f, newId, today).value.tasks[0])
  {
  }

  /** Editing keeps the old completion time whatever the new status, so an
      edit to or from COMPLETED breaks the coupling of a coupled task. */
  lemma EditCanBreakCoupling(t: Task, f: TaskForm)
    requires Coupled(t) && (t.status == Completed <==> f.status != Completed)
    ensures !Coupled(EditedTask(t, f))
  {
  }

  /** The table's toggle: a completed task reopens as NOT_STARTED without a
      completion time; any other status becomes COMPLETED, stamped today. */
  function Toggled(t: Task, today: int): (r: Task)
    ensures r == t.(status := r.status, completedAt := r.completedAt)
    ensures t.status == Completed ==> r.status == NotStarted && r.completedAt.None?
    ensures t.status != Completed ==> r.status == Completed && r.completedAt == Some(today)
    ensures Coupled(r)
  {
    if t.status == Completed then t.(status := NotStarted, completedAt := None)
    else t.(status := Completed, completedAt := Some(today))
  }

  /** `toggleTaskStatus`: toggles the first task with the id; an unknown id
      changes nothing. */
  function ToggleTaskStatus(tasks: seq<Task>, id: int, today: int): (r: seq<Task>)
    ensures |r| == |tasks|
    ensures Seqs.NoneMatch(tasks, HasId(id)) ==> r == tasks
    ensures forall k :: Seqs.IsFirst(tasks, HasId(id), k) ==> r == tasks[k := Toggled(tasks[k], today)]
  {
    match Seqs.FindFirst(tasks, HasId(id))
    case None => tasks
    case Some(k) => tasks[k := Toggled(tasks[k], today)]
  }

  /** Toggling keeps every coupled task coupled: the toggled one is coupled
      afresh and the others are untouched. */
  lemma ToggleKeepsAllCoupled(tasks: seq<Task>, id: int, today: int)
    requires forall i :: 0 <= i < |tasks| ==> Coupled(tasks[i])
    ensures var r := ToggleTaskStatus(tasks, id, today); forall i :: 0 <= i < |r| ==> Coupled(r[i])
  {
  }

  /** The toggle is not an involution: IN_PROGRESS toggled twice ends at NOT_STARTED. */
  lemma ToggleTwiceFromInProgress(t: Task, today: int, later: int)
    requires t.status == InProgress
    ensures Toggled(Toggled(t, today), later).status == NotStarted
  {
  }

  /** On the two statuses the toggle produces, toggling twice restores the status. */
  lemma ToggleTwiceRestoresEnds(t: Task, today: int, later: int)
    requires t.status == NotStarted || t.status == Completed
    ensures Toggled(Toggled(t, today), later).status == t.status
  {
  }

  /** A task the toggle marks done is no longer flagged overdue; one it
      reopens is flagged again exactly when its due date has passed. */
  lemma ToggleAndOverdue(t: Task, today: int, now: int)
    ensures t.status != Completed ==> !IsOverdue(Toggled(t, today), now)
    ensures t.status == Completed ==> (IsOverdue(Toggled(t, today), now) <==> t.dueDate.Some? && t.dueDate.value < now)
  {
  }

  /** `deleteTask` once confirmed: both lists lose every task with the id
      and keep the rest in order. */
  function DeleteTask(m: TasksManager, id: int): (r: TasksManager)
    ensures r.editingTaskId == m.editingTaskId
    ensures forall t :: t in r.tasks <==> t in m.tasks && t.id != id
    ensures forall t :: t in r.filteredTasks <==> t in m.filteredTasks && t.id != id
    ensures forall t: Task :: multiset(r.tasks)[t] == if t.id != id then multiset(m.tasks)[t] else 0
    ensures forall t: Task :: multiset(r.filteredTasks)[t] == if t.id != id then multiset(m.filteredTasks)[t] else 0
    ensures Seqs.IsSubsequence(r.tasks, m.tasks) && Seqs.IsSubsequence(r.filteredTasks, m.filteredTasks)
  {
    m.(tasks := Seqs.Filter(m.tasks, LacksId(id)), filteredTasks := Seqs.Filter(m.filteredTasks, LacksId(id)))
  }

  /** The filter controls: `None` is the empty selection, `search` the raw
      text of the search box and `project` the raw value of the project
      select, empty when nothing is selected. */
  datatype TaskFilter = TaskFilter(
    search: string,
    status: Option<Status>,
    priority: Option<Priority>,
    project: string,
    sortBy: string)

  /** The lowered search term occurs in the lowered title or description. */
  predicate MatchesSearch(t: Task, term: string, lower: string -> string) {
    Text.Contains(lower(t.title), term) ||
    (t.description.Some? && Text.Contains(lower(t.description.value), term))
  }

  /** The test `filterTasks` applies to each task. */
  function TaskMatches(f: TaskFilter, lower: string -> string, parseInt: string -> Option<int>): Task -> bool {
    (t: Task) =>
      && MatchesSearch(t, lower(f.search), lower)
      && (!StatusChosen(f.status) || t.status == f.status.value)
      && (!PriorityChosen(f.priority) || t.priority == f.priority.value)
      && (f.project == "" || InParsedProject(f.project, parseInt)(t))
  }

  /** `priorityOrder[p]`, with `None` for the `undefined` of an unknown priority. */
  function PriorityWeight(p: Priority): Option<int> {
    match p
    case Urgent => Some(4)
    case High => Some(3)
    case Medium => Some(2)
    case Low => Some(1)
    case OtherPriority(_) => None
  }

  /** The weight of a known priority; unknown ones never reach a use of it. */
  function Rank(p: Priority): int {
    match PriorityWeight(p)
    case Some(w) => w
    case None => 0
  }

  /** Higher weight first. An unknown priority makes the difference NaN,
      which the sort reads as +0: "equal". */
  function ByPriority(a: Task, b: Task): int {
    match (PriorityWeight(a.priority), PriorityWeight(b.priority))
    case (Some(wa), Some(wb)) => wb - wa
    case _ => 0
  }

  /** Newest first. */
  function ByCreatedAt(a: Task, b: Task): int {
    b.createdAt - a.createdAt
  }

  /** Earliest due date first, tasks without a due date last. */
  function ByDueDate(a: Task, b: Task): int {
    if a.dueDate.None? && b.dueDate.None? then 0
    else if a.dueDate.None? then 1
    else if b.dueDate.None? then -1
    else a.dueDate.value - b.dueDate.value
  }

  /** Titles in collation order. */
  function ByTitle(collate: (string, string) -> int): (Task, Task) -> int {
    (a: Task, b: Task) => collate(a.title, b.title)
  }

  /** The comparator the `sortBy` select chooses; anything but the three
      named keys, the empty default included, sorts by due date. */
  function TaskComparator(sortBy: string, collate: (string, string) -> int): (Task, Task) -> int {
    if sortBy == "title" then ByTitle(collate)
    else if sortBy == "priority" then ByPriority
    else if sortBy == "createdAt" then ByCreatedAt
    else ByDueDate
  }

  /** `filterTasks`: the tasks passing every filter, sorted by the chosen
      key. The result holds each passing task as often as the list does and
      nothing else. */
  function FilterTasks(tasks: seq<Task>, f: TaskFilter, lower: string -> string, parseInt: string -> Option<int>, collate: (string, string) -> int): (r: seq<Task>)
    ensures |r| <= |tasks|
    ensures forall t :: t in r <==> t in tasks && TaskMatches(f, lower, parseInt)(t)
    ensures forall t :: multiset(r)[t] == if TaskMatches(f, lower, parseInt)(t) then multiset(tasks)[t] else 0
  {
    Sorting.Sort(Seqs.Filter(tasks, TaskMatches(f, lower, parseInt)), TaskComparator(f.sortBy, collate))
  }

  /** With the search box empty and no filter chosen every task is shown;
      a select left on its empty option counts as not chosen. */
  lemma EmptyFilterShowsAll(tasks: seq<Task>, status: Option<Status>, priority: Option<Priority>, sortBy: string,
                            lower: string -> string, parseInt: string -> Option<int>, collate: (string, string) -> int)
    requires lower("") == "" && !StatusChosen(status) && !PriorityChosen(priority)
    ensures multiset(FilterTasks(tasks, TaskFilter("", status, priority, "", sortBy), lower, parseInt, collate)) == multiset(tasks)
  {
    var f := TaskFilter("", status, priority, "", sortBy);
    forall t | true
      ensures TaskMatches(f, lower, parseInt)(t)
    {
      Text.EmptyIsContained(lower(t.title));
      assert MatchesSearch(t, lower(f.search), lower);
    }
  }

  lemma DueDatePreorder(s: seq<Task>)
    ensures Sorting.TotalPreorderOn(ByDueDate, s)
  {
  }

  /** Sorted by due date, every dated task precedes every undated one and
      the dated ones ascend. */
  lemma DueDateSortOrder(tasks: seq<Task>, f: TaskFilter, lower: string -> string, parseInt: string -> Option<int>, collate: (string, string) -> int)
    requires f.sortBy != "title" && f.sortBy != "priority" && f.sortBy != "createdAt"
    ensures var r := FilterTasks(tasks, f, lower, parseInt, collate);
      forall i, j :: 0 <= i < j < |r| ==>
        (r[i].dueDate.None? ==> r[j].dueDate.None?) &&
        (r[i].dueDate.Some? && r[j].dueDate.Some? ==> r[i].dueDate.value <= r[j].dueDate.value)
  {
    var kept := Seqs.Filter(tasks, TaskMatches(f, lower, parseInt));
    DueDatePreorder(kept);
    Sorting.SortSorted(kept, ByDueDate);
  }

  lemma CreatedAtPreorder(s: seq<Task>)
    ensures Sorting.TotalPreorderOn(ByCreatedAt, s)
  {
  }

  /** Sorted by creation, newer tasks come first. */
  lemma CreatedAtSortOrder(tasks: seq<Task>, f: TaskFilter, lower: string -> string, parseInt: string -> Option<int>, collate: (string, string) -> int)
    requires f.sortBy == "createdAt"
    ensures var r := FilterTasks(tasks, f, lower, parseInt, collate);
      forall i, j :: 0 <= i < j < |r| ==> r[i].createdAt >= r[j].createdAt
  {
    var kept := Seqs.Filter(tasks, TaskMatches(f, lower, parseInt));
    CreatedAtPreorder(kept);
    Sorting.SortSorted(kept, ByCreatedAt);
  }

  /** Every task in `s` has one of the four known priorities. */
  predicate KnownPriorities(s: seq<Task>) {
    forall i :: 0 <= i < |s| ==> PriorityWeight(s[i].priority).Some?
  }

  lemma PriorityPreorder(s: seq<Task>)
    requires KnownPriorities(s)
    ensures Sorting.TotalPreorderOn(ByPriority, s)
  {
  }

  /** Sorted by priority, URGENT precedes HIGH precedes MEDIUM precedes LOW.
      With an unknown priority in the list the comparator is inconsistent and
      ECMAScript leaves the order to the implementation, hence the requirement. */
  lemma PrioritySortOrder(tasks: seq<Task>, f: TaskFilter, lower: string -> string, parseInt: string -> Option<int>, collate: (string, string) -> int)
    requires f.sortBy == "priority" && KnownPriorities(tasks)
    ensures var r := FilterTasks(tasks, f, lower, parseInt, collate);
      forall i, j :: 0 <= i < j < |r| ==> Rank(r[i].priority) >= Rank(r[j].priority)
  {
    var kept := Seqs.Filter(tasks, TaskMatches(f, lower, parseInt));
    KeptPrioritiesKnown(tasks, kept);
    PriorityPreorder(kept);
    Sorting.SortSorted(kept, ByPriority);
    assert f.sortBy != "title";
    assert TaskComparator(f.sortBy, collate) == ByPriority;
    var r := Sorting.Sort(kept, ByPriority);
    assert r == FilterTasks(tasks, f, lower, parseInt, collate);
    KeptPrioritiesKnown(kept, r);
    SortedByWeight(r);
  }

  /** The tasks whose priority has weight `k`, with 0 for the unknown ones. */
  function SameRank(k: int): Task -> bool {
    (t: Task) => Rank(t.priority) == k
  }

  /** Priority ties keep list order: for every weight, the tasks of that
      weight come out of the priority sort in the order the filter passed
      them. This is a property of the model's insertion sort; with an
      unknown priority the source's comparator is inconsistent and the
      browser's order is not fixed (see README). */
  lemma PrioritySortStable(tasks: seq<Task>, f: TaskFilter, lower: string -> string, parseInt: string -> Option<int>,
                           collate: (string, string) -> int, k: int)
    requires f.sortBy == "priority"
    ensures Seqs.Filter(FilterTasks(tasks, f, lower, parseInt, collate), SameRank(k))
         == Seqs.Filter(Seqs.Filter(tasks, TaskMatches(f, lower, parseInt)), SameRank(k))
  {
    var kept := Seqs.Filter(tasks, TaskMatches(f, lower, parseInt));
    forall a: Task, b: Task | SameRank(k)(a) && SameRank(k)(b) ensures ByPriority(a, b) <= 0 {
    }
    Sorting.SortStable(kept, ByPriority, SameRank(k));
    assert f.sortBy != "title";
    assert TaskComparator(f.sortBy, collate) == ByPriority;
  }

  lemma KeptPrioritiesKnown(s: seq<Task>, r: seq<Task>)
    requires KnownPriorities(s) && forall t :: t in r ==> t in s
    ensures KnownPriorities(r)
  {
    forall i | 0 <= i < |r| ensures PriorityWeight(r[i].priority).Some? {
      assert r[i] in s;
    }
  }

  lemma SortedByWeight(r: seq<Task>)
    requires KnownPriorities(r) && Sorting.Sorted(r, ByPriority)
    ensures forall i, j :: 0 <= i < j < |r| ==> Rank(r[i].priority) >= Rank(r[j].priority)
  {
    forall i, j | 0 <= i < j < |r|
      ensures Rank(r[i].priority) >= Rank(r[j].priority)
    {
      assert ByPriority(r[i], r[j]) <= 0;
    }
  }

  /** `localeCompare` read as a total preorder on strings. */
  ghost predicate CollationIsPreorder(collate: (string, string) -> int) {
    && (forall a, b :: collate(a, b) <= 0 || collate(b, a) <= 0)
    && (forall a, b, c :: collate(a, b) <= 0 && collate(b, c) <= 0 ==> collate(a, c) <= 0)
  }

  /** Sorted by title, titles follow the collation. */
  lemma TitleSortOrder(tasks: seq<Task>, f: TaskFilter, lower: string -> string, parseInt: string -> Option<int>, collate: (string, string) -> int)
    requires f.sortBy == "title" && CollationIsPreorder(collate)
    ensures var r := FilterTasks(tasks, f, lower, parseInt, collate);
      forall i, j :: 0 <= i < j < |r| ==> collate(r[i].title, r[j].title) <= 0
  {
    var kept := Seqs.Filter(tasks, TaskMatches(f, lower, parseInt));
    var cmp := ByTitle(collate);
    assert TaskComparator(f.sortBy, collate) == cmp;
    TitlePreorder(collate, kept);
    Sorting.SortSorted(kept, cmp);
    var r := Sorting.Sort(kept, cmp);
    assert r == FilterTasks(tasks, f, lower, parseInt, collate);
    forall i, j | 0 <= i < j < |r| ensures collate(r[i].title, r[j].title) <= 0 {
      assert cmp(r[i], r[j]) <= 0;
    }
  }

  lemma TitlePreorder(collate: (string, string) -> int, s: seq<Task>)
    requires CollationIsPreorder(collate)
    ensures Sorting.TotalPreorderOn(ByTitle(collate), s)
  {
    var cmp := ByTitle(collate);
    forall a, b | a in s && b in s ensures cmp(a, b) <= 0 || cmp(b, a) <= 0 {
      assert collate(a.title, b.title) <= 0 || collate(b.title, a.title) <= 0;
    }
    forall a, b, c | a in s && b in s && c in s && cmp(a, b) <= 0 && cmp(b, c) <= 0
      ensures cmp(a, c) <= 0
    {
      assert collate(a.title, b.title) <= 0 && collate(b.title, c.title) <= 0;
    }
  }

  /** `getTasksByStatus`: exactly the tasks with that status, in list order. */
  function GetTasksByStatus(tasks: seq<Task>, s: Status): (r: seq<Task>)
    ensures forall t :: t in r <==> t in tasks && t.status == s
    ensures forall t: Task :: t.status == s ==> multiset(r)[t] == multiset(tasks)[t]
    ensures Seqs.IsSubsequence(r, tasks)
  {
    Seqs.Filter(tasks, HasStatus(s))
  }

  /** `getTasksByProject`: exactly the tasks of that project, in list order. */
  function GetTasksByProject(tasks: seq<Task>, projectId: int): (r: seq<Task>)
    ensures forall t :: t in r <==> t in tasks && t.projectId == Some(projectId)
    ensures forall t: Task :: t.projectId == Some(projectId) ==> multiset(r)[t] == multiset(tasks)[t]
    ensures Seqs.IsSubsequence(r, tasks)
  {
    Seqs.Filter(tasks, InProject(projectId))
  }
}
