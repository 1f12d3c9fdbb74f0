/** The task records the three implementations share. The backend spells
    statuses `completed`, the browser `COMPLETED`; both map to one enum, and
    the `Other…` constructors hold any spelling outside the known ones, which
    the browser code accepts without complaint. Dates and times are integers. */
module Model {
  import opened Wrappers

  datatype Status = NotStarted | InProgress | Completed | OnHold | OtherStatus(name: string)

  datatype Priority = Low | Medium | High | Urgent | OtherPriority(name: string)

  /** Project statuses; the prefixes keep them apart from task statuses. */
  datatype ProjectStatus = Active | ProjectCompleted | ProjectOnHold | Cancelled | OtherProjectStatus(name: string)

  datatype ChecklistItem = ChecklistItem(item: string, completed: bool, completedAt: Option<int>)

  /** A time-tracking interval; `endTime == None` while it is still running. */
  datatype TimeLog = TimeLog(user: int, startTime: int, endTime: Option<int>, description: string)

  /** A task. `projectId` is the id of the referenced project (`task.project?.id`
      in the browser, the `project` reference on the backend). */
  datatype Task = Task(
    id: int,
    title: string,
    description: Option<string>,
    projectId: Option<int>,
    status: Status,
    priority: Priority,
    assignedTo: Option<int>,
    dueDate: Option<int>,
    completedAt: Option<int>,
    createdAt: int,
    checklist: seq<ChecklistItem>,
    timeLogs: seq<TimeLog>)

  /** A select value the browser treats as chosen. The empty string is
      falsy in JavaScript, so an `Other…` spelling of "" counts as no
      choice, exactly like a missing value. */
  predicate StatusChosen(s: Option<Status>) {
    s.Some? && s.value != OtherStatus("")
  }

  predicate PriorityChosen(p: Option<Priority>) {
    p.Some? && p.value != OtherPriority("")
  }

  predicate ProjectStatusChosen(s: Option<ProjectStatus>) {
    s.Some? && s.value != OtherProjectStatus("")
  }

  /** The coupling every surface is meant to keep: a task is COMPLETED
      exactly when it carries a completion time. */
  predicate Coupled(t: Task) {
    t.status == Completed <==> t.completedAt.Some?
  }

  /** The same coupling for one checklist entry. */
  predicate ItemCoupled(c: ChecklistItem) {
    c.completed <==> c.completedAt.Some?
  }

  /** The browser's spelling of a task status, the key of its colour maps. */
  function StatusName(s: Status): string {
    match s
    case NotStarted => "NOT_STARTED"
    case InProgress => "IN_PROGRESS"
    case Completed => "COMPLETED"
    case OnHold => "ON_HOLD"
    case OtherStatus(n) => n
  }

  /** The browser's spelling of a project status. */
  function ProjectStatusName(s: ProjectStatus): string {
    match s
    case Active => "ACTIVE"
    case ProjectCompleted => "COMPLETED"
    case ProjectOnHold => "ON_HOLD"
    case Cancelled => "CANCELLED"
    case OtherProjectStatus(n) => n
  }

  /** A task is overdue when it has a due date, is not completed, and the
      due date lies before `now`. The backend virtual and the three browser
      copies agree on this. */
  function IsOverdue(t: Task, now: int): (r: bool)
    ensures t.dueDate.None? || t.status == Completed ==> !r
    ensures t.dueDate.Some? && t.status != Completed ==> (r <==> t.dueDate.value < now)
  {
    if t.dueDate.None? || t.status == Completed then false else now > t.dueDate.value
  }

  /** Selector functions, named so that every use denotes the same test. */
  function HasId(id: int): Task -> bool {
    (t: Task) => t.id == id
  }

  function LacksId(id: int): Task -> bool {
    (t: Task) => t.id != id
  }

  function HasStatus(s: Status): Task -> bool {
    (t: Task) => t.status == s
  }

  function InProject(projectId: int): Task -> bool {
    (t: Task) => t.projectId == Some(projectId)
  }

  /** `task.project?.id === parseInt(filter)`: a task without a project, or
      a filter that parses to NaN (`None`), never matches. */
  function InParsedProject(filter: string, parseInt: string -> Option<int>): Task -> bool {
    (t: Task) => parseInt(filter).Some? && t.projectId == parseInt(filter)
  }

  predicate IsCompleted(t: Task) {
    t.status == Completed
  }

  predicate IsPending(t: Task) {
    t.status != Completed
  }
}
