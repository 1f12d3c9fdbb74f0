/** The kanban board (frontend/js/kanban.js): four status columns, the drag
    that moves a task between them, the project select and deletion. The
    board shares its edits with the task table's manager when one exists,
    so the operations take and return it as an `Option`. */
module Kanban {
  import opened Wrappers
  import opened Model
  import Seqs
  import TasksView

  /** The board's displayed tasks and its master list. */
  datatype Board = Board(tasks: seq<Task>, allTasks: seq<Task>)

  /** The statuses of the four columns, in board order. */
  const ColumnStatuses: seq<Status> := [NotStarted, InProgress, OnHold, Completed]

  /** A status outside the four columns: such a task is drawn nowhere. */
  predicate Unplaced(t: Task) {
    t.status.OtherStatus?
  }

  /** `renderColumn`'s selection: the tasks whose status is exactly `s`,
      in list order. */
  function Column(tasks: seq<Task>, s: Status): (r: seq<Task>)
    ensures forall t :: t in r <==> t in tasks && t.status == s
    ensures forall t :: multiset(r)[t] == if t.status == s then multiset(tasks)[t] else 0
    ensures Seqs.IsSubsequence(r, tasks)
  {
    Seqs.Filter(tasks, HasStatus(s))
  }

  /** Every task with one of the four statuses is in its status's column
      and in no other; a task with any other status is in none. */
  lemma ColumnMembership(tasks: seq<Task>)
    ensures forall t, s :: t in tasks && s in ColumnStatuses ==> (t in Column(tasks, s) <==> t.status == s)
    ensures forall t, s :: t in tasks && Unplaced(t) && s in ColumnStatuses ==> t !in Column(tasks, s)
  {
  }

  /** The columns split the tasks: the column sizes and the unplaced tasks
      add up to the whole list, so no task is drawn twice. */
  lemma {:induction false} ColumnsPartition(tasks: seq<Task>)
    ensures |Column(tasks, NotStarted)| + |Column(tasks, InProgress)| + |Column(tasks, OnHold)|
            + |Column(tasks, Completed)| + Seqs.Count(tasks, Unplaced) == |tasks|
  {
    if |tasks| > 0 {
      ColumnsPartition(tasks[1..]);
    }
  }

  /** A dropped task takes the column's status, stamped with today when
      that is COMPLETED and cleared otherwise. */
  function Moved(t: Task, newStatus: Status, today: int): (r: Task)
    ensures r == t.(status := newStatus, completedAt := r.completedAt)
    ensures newStatus == Completed ==> r.completedAt == Some(today)
    ensures newStatus != Completed ==> r.completedAt.None?
    ensures Coupled(r)
  {
    t.(status := newStatus, completedAt := if newStatus == Completed then Some(today) else None)
  }

  /** `handleTaskMove`'s guard: `parseInt` of the card's id (`None` for
      NaN) and the column's status must both be truthy, so neither 0 nor
      an empty status passes. */
  predicate MoveRequested(taskId: Option<int>, newStatus: Option<Status>) {
    taskId.Some? && taskId.value != 0 && StatusChosen(newStatus)
  }

  /** Copies the moved task's status and completion time into the
      manager's entry with the same id, if there is one. */
  function SyncManager(m: TasksView.TasksManager, id: int, newStatus: Status, today: int): (r: TasksView.TasksManager)
    ensures r.filteredTasks == m.filteredTasks && r.editingTaskId == m.editingTaskId
    ensures Seqs.NoneMatch(m.tasks, HasId(id)) ==> r == m
    ensures forall j :: Seqs.IsFirst(m.tasks, HasId(id), j) ==> r.tasks == m.tasks[j := Moved(m.tasks[j], newStatus, today)]
  {
    match Seqs.FindFirst(m.tasks, HasId(id))
    case None => m
    case Some(j) => m.(tasks := m.tasks[j := Moved(m.tasks[j], newStatus, today)])
  }

  /** `handleTaskMove`. Nothing changes when the guard fails, when the
      board has no task with the id, or when that task already has the
      column's status. Otherwise the first board task with the id is moved
      and the manager's first entry with the id receives the same status
      and completion time; nothing else changes. */
  function HandleTaskMove(b: Board, manager: Option<TasksView.TasksManager>, taskId: Option<int>,
                          newStatus: Option<Status>, today: int): (r: (Board, Option<TasksView.TasksManager>))
    ensures r.0.allTasks == b.allTasks && |r.0.tasks| == |b.tasks|
    ensures r.1.Some? == manager.Some?
    ensures !MoveRequested(taskId, newStatus) ==> r == (b, manager)
    ensures MoveRequested(taskId, newStatus) && Seqs.NoneMatch(b.tasks, HasId(taskId.value)) ==> r == (b, manager)
    ensures forall k :: MoveRequested(taskId, newStatus) && Seqs.IsFirst(b.tasks, HasId(taskId.value), k) ==>
      if b.tasks[k].status == newStatus.value then r == (b, manager)
      else
        && r.0.tasks == b.tasks[k := Moved(b.tasks[k], newStatus.value, today)]
        && (manager.Some? ==> r.1.value == SyncManager(manager.value, taskId.value, newStatus.value, today))
  {
    if !MoveRequested(taskId, newStatus) then (b, manager)
    else
      var id, s := taskId.value, newStatus.value;
      match Seqs.FindFirst(b.tasks, HasId(id))
      case None => (b, manager)
      case Some(k) =>
        if b.tasks[k].status == s then (b, manager)
        else
          var board := b.(tasks := b.tasks[k := Moved(b.tasks[k], s, today)]);
          match manager
          case None => (board, None)
          case Some(m) => (board, Some(SyncManager(m, id, s, today)))
  }

  /** Every task in `s` keeps the status/completion-time coupling. */
  predicate AllCoupled(s: seq<Task>) {
    forall i :: 0 <= i < |s| ==> Coupled(s[i])
  }

  /** A move keeps the coupling on the board and in the manager's list. */
  lemma MoveKeepsAllCoupled(b: Board, manager: Option<TasksView.TasksManager>, taskId: Option<int>,
                            newStatus: Option<Status>, today: int)
    requires AllCoupled(b.tasks) && (manager.Some? ==> AllCoupled(manager.value.tasks))
    ensures var r := HandleTaskMove(b, manager, taskId, newStatus, today);
      AllCoupled(r.0.tasks) && (r.1.Some? ==> AllCoupled(r.1.value.tasks))
  {
  }

  /** Dropping the same card on the same column again changes nothing more. */
  lemma MoveIdempotent(b: Board, manager: Option<TasksView.TasksManager>, taskId: Option<int>,
                       newStatus: Option<Status>, today: int, later: int)
    ensures var r := HandleTaskMove(b, manager, taskId, newStatus, today);
      HandleTaskMove(r.0, r.1, taskId, newStatus, later) == r
  {
    var r := HandleTaskMove(b, manager, taskId, newStatus, today);
    if MoveRequested(taskId, newStatus) {
      var p := HasId(taskId.value);
      match Seqs.FindFirst(b.tasks, p)
      case None =>
      case Some(k) =>
        if b.tasks[k].status != newStatus.value {
          assert Seqs.IsFirst(r.0.tasks, p, k);
        }
    }
  }

  /** A task dropped on the done column is no longer overdue, whatever the
      clock says. */
  lemma MovedToDoneNotOverdue(t: Task, today: int, now: int)
    ensures !IsOverdue(Moved(t, Completed, today), now)
  {
  }

  /** `filterTasks`: the master list is the manager's list when there is a
      manager and the board's own otherwise. The empty selection and "All
      Projects" show all of it; any other value shows, in order, the tasks
      whose project id equals the parsed value. */
  function SelectProject(b: Board, manager: Option<TasksView.TasksManager>, filter: string,
                         parseInt: string -> Option<int>): (r: Board)
    ensures r.allTasks == b.allTasks
    ensures var source := if manager.Some? then manager.value.tasks else b.allTasks;
      && ((filter == "" || filter == "All Projects") ==> r.tasks == source)
      && ((filter != "" && filter != "All Projects") ==>
            && (forall t :: t in r.tasks <==> t in source && parseInt(filter).Some? && t.projectId == parseInt(filter))
            && (forall t :: multiset(r.tasks)[t] ==
                  if parseInt(filter).Some? && t.projectId == parseInt(filter) then multiset(source)[t] else 0)
            && Seqs.IsSubsequence(r.tasks, source))
  {
    var source := if manager.Some? then manager.value.tasks else b.allTasks;
    if filter == "" || filter == "All Projects" then b.(tasks := source)
    else b.(tasks := Seqs.Filter(source, InParsedProject(filter, parseInt)))
  }

  /** A filter that parses to NaN empties the board. */
  lemma UnparsableFilterShowsNothing(b: Board, manager: Option<TasksView.TasksManager>, filter: string,
                                     parseInt: string -> Option<int>)
    requires filter != "" && filter != "All Projects" && parseInt(filter).None?
    ensures SelectProject(b, manager, filter, parseInt).tasks == []
  {
  }

  /** `deleteTask` once confirmed: the id leaves the board's two lists and
      the manager's two lists; every other task keeps its place and its
      multiplicity in each. The manager's lists are cut exactly as the task
      table's own delete cuts them. */
  function DeleteTask(b: Board, manager: Option<TasksView.TasksManager>, id: int): (r: (Board, Option<TasksView.TasksManager>))
    ensures forall t :: t in r.0.tasks <==> t in b.tasks && t.id != id
    ensures forall t :: t in r.0.allTasks <==> t in b.allTasks && t.id != id
    ensures forall t :: multiset(r.0.tasks)[t] == if t.id != id then multiset(b.tasks)[t] else 0
    ensures forall t :: multiset(r.0.allTasks)[t] == if t.id != id then multiset(b.allTasks)[t] else 0
    ensures Seqs.IsSubsequence(r.0.tasks, b.tasks) && Seqs.IsSubsequence(r.0.allTasks, b.allTasks)
    ensures r.1.Some? == manager.Some?
    ensures manager.Some? ==> r.1 == Some(TasksView.DeleteTask(manager.value, id))
    ensures manager.Some? ==>
      && (forall t :: t in r.1.value.tasks <==> t in manager.value.tasks && t.id != id)
      && (forall t :: t in r.1.value.filteredTasks <==> t in manager.value.filteredTasks && t.id != id)
  {
    var board := Board(Seqs.Filter(b.tasks, LacksId(id)), Seqs.Filter(b.allTasks, LacksId(id)));
    match manager
    case None => (board, None)
    case Some(m) => (board, Some(TasksView.DeleteTask(m, id)))
  }

  /** Deleting the same task twice is deleting it once, on the board and in
      the manager. */
  lemma DeleteTaskIdempotent(b: Board, manager: Option<TasksView.TasksManager>, id: int)
    ensures var r := DeleteTask(b, manager, id);
      DeleteTask(r.0, r.1, id) == r
  {
    Seqs.FilterIdempotent(b.tasks, LacksId(id));
    Seqs.FilterIdempotent(b.allTasks, LacksId(id));
    if manager.Some? {
      Seqs.FilterIdempotent(manager.value.tasks, LacksId(id));
      Seqs.FilterIdempotent(manager.value.filteredTasks, LacksId(id));
    }
  }

  /** `getPriorityClass`: URGENT shares HIGH's class and an unknown
      priority gets MEDIUM's. */
  function PriorityClass(p: Priority): (r: string)
    ensures r == "high-priority" <==> p == High || p == Urgent
    ensures r == "low-priority" <==> p == Low
    ensures r == "medium-priority" <==> p == Medium || p.OtherPriority?
  {
    match p
    case Low => "low-priority"
    case Medium => "medium-priority"
    case High => "high-priority"
    case Urgent => "high-priority"
    case OtherPriority(_) => "medium-priority"
  }

  /** The card classes follow the sort weights: a known priority is drawn
      high exactly when it outweighs MEDIUM and low exactly when it weighs
      least, and an unknown priority is drawn like MEDIUM. */
  lemma PriorityClassByWeight(p: Priority)
    ensures TasksView.PriorityWeight(p).Some? ==>
      && (PriorityClass(p) == "high-priority" <==> TasksView.Rank(p) > TasksView.Rank(Medium))
      && (PriorityClass(p) == "low-priority" <==> TasksView.Rank(p) < TasksView.Rank(Medium))
    ensures TasksView.PriorityWeight(p).None? ==> PriorityClass(p) == PriorityClass(Medium)
  {
  }
}
