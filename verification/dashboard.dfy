/** The dashboard of the browser application (frontend/js/app.js): the four
    counters, the status tally behind the doughnut chart, the recent-items
    slices, the badge colour map and the theme switch. */
module Dashboard {
  import opened Model
  import Seqs
  import ProjectsView

  /** The numbers the four dashboard cards show. */
  datatype Stats = Stats(totalProjects: nat, completedTasks: nat, pendingTasks: nat, overdueTasks: nat)

  function OverdueAt(now: int): Task -> bool {
    (t: Task) => IsOverdue(t, now)
  }

  /** `updateDashboardStats`: each card counts the positions of the list
      holding a task of its kind; completed and pending tasks split the
      list, and every overdue task is a pending one. */
  function DashboardStats(projects: seq<ProjectsView.Project>, tasks: seq<Task>, now: int): (r: Stats)
    ensures r.totalProjects == |projects|
    ensures r.completedTasks == |set i | 0 <= i < |tasks| && tasks[i].status == Completed|
    ensures r.pendingTasks == |set i | 0 <= i < |tasks| && tasks[i].status != Completed|
    ensures r.overdueTasks == |set i | 0 <= i < |tasks| && IsOverdue(tasks[i], now)|
    ensures r.completedTasks + r.pendingTasks == |tasks|
    ensures r.overdueTasks <= r.pendingTasks
    ensures r.completedTasks == |tasks| <==> forall i :: 0 <= i < |tasks| ==> tasks[i].status == Completed
    ensures r.overdueTasks == 0 <==> forall i :: 0 <= i < |tasks| ==> !IsOverdue(tasks[i], now)
  {
    Seqs.CountComplement(tasks, IsCompleted, IsPending);
    Seqs.CountImplies(tasks, OverdueAt(now), IsPending);
    CardCounts(tasks, now);
    Stats(|projects|, Seqs.Count(tasks, IsCompleted), Seqs.Count(tasks, IsPending), Seqs.Count(tasks, OverdueAt(now)))
  }

  /** The three task cards' counts as numbers of matching positions. */
  lemma CardCounts(tasks: seq<Task>, now: int)
    ensures Seqs.Count(tasks, IsCompleted) == |set i | 0 <= i < |tasks| && tasks[i].status == Completed|
    ensures Seqs.Count(tasks, IsPending) == |set i | 0 <= i < |tasks| && tasks[i].status != Completed|
    ensures Seqs.Count(tasks, OverdueAt(now)) == |set i | 0 <= i < |tasks| && IsOverdue(tasks[i], now)|
  {
    CompletedCard(tasks);
    PendingCard(tasks);
    OverdueCard(tasks, now);
  }

  lemma CompletedCard(tasks: seq<Task>)
    ensures Seqs.Count(tasks, IsCompleted) == |set i | 0 <= i < |tasks| && tasks[i].status == Completed|
  {
    Seqs.CountIsPositions(tasks, IsCompleted);
    assert Seqs.Positions(tasks, IsCompleted) == set i | 0 <= i < |tasks| && tasks[i].status == Completed;
  }

  lemma PendingCard(tasks: seq<Task>)
    ensures Seqs.Count(tasks, IsPending) == |set i | 0 <= i < |tasks| && tasks[i].status != Completed|
  {
    Seqs.CountIsPositions(tasks, IsPending);
    assert Seqs.Positions(tasks, IsPending) == set i | 0 <= i < |tasks| && tasks[i].status != Completed;
  }

  lemma OverdueCard(tasks: seq<Task>, now: int)
    ensures Seqs.Count(tasks, OverdueAt(now)) == |set i | 0 <= i < |tasks| && IsOverdue(tasks[i], now)|
  {
    Seqs.CountIsPositions(tasks, OverdueAt(now));
    assert Seqs.Positions(tasks, OverdueAt(now)) == set i | 0 <= i < |tasks| && IsOverdue(tasks[i], now);
  }

  /** The four keys the tally object starts with, in its insertion order. */
  const InitialKeys: seq<string> := ["NOT_STARTED", "IN_PROGRESS", "COMPLETED", "ON_HOLD"]

  function NamedStatus(key: string): Task -> bool {
    (t: Task) => StatusName(t.status) == key
  }

  predicate Distinct(keys: seq<string>) {
    forall i, j :: 0 <= i < j < |keys| ==> keys[i] != keys[j]
  }

  function Sum(s: seq<int>): int {
    if |s| == 0 then 0 else s[0] + Sum(s[1..])
  }

  lemma {:induction false} SumSnoc(s: seq<int>, v: int)
    ensures Sum(s + [v]) == Sum(s) + v
  {
    if |s| > 0 {
      assert (s + [v])[1..] == s[1..] + [v];
      SumSnoc(s[1..], v);
    }
  }

  lemma {:induction false} SumUpdate(s: seq<int>, i: nat, v: int)
    requires i < |s|
    ensures Sum(s[i := v]) == Sum(s) - s[i] + v
  {
    if i == 0 {
      assert s[i := v][1..] == s[1..];
    } else {
      assert s[i := v][1..] == s[1..][i - 1 := v];
      SumUpdate(s[1..], i - 1, v);
    }
  }

  /** The position of `key` in `keys`, or `|keys|` when it is absent. */
  function IndexOf(keys: seq<string>, key: string): (i: nat)
    ensures i <= |keys|
    ensures i < |keys| ==> keys[i] == key
    ensures i == |keys| <==> key !in keys
  {
    if |keys| == 0 then 0
    else if keys[0] == key then 0
    else 1 + IndexOf(keys[1..], key)
  }

  /** How many tasks of `done` are spelled `key`, counted the way the
      loop meets them: last task last. */
  function Occurrences(done: seq<Task>, key: string): nat {
    if |done| == 0 then 0
    else Occurrences(done[..|done| - 1], key) + (if StatusName(done[|done| - 1].status) == key then 1 else 0)
  }

  /** The loop's count is the count of tasks with that spelling. */
  lemma {:induction false} OccurrencesIsCount(done: seq<Task>, key: string)
    ensures Occurrences(done, key) == Seqs.Count(done, NamedStatus(key))
  {
    if |done| > 0 {
      var n := |done| - 1;
      OccurrencesIsCount(done[..n], key);
      assert done == done[..n] + [done[n]];
      Seqs.CountSnoc(done[..n], done[n], NamedStatus(key));
    }
  }

  /** `keys` and `counts` are the tally of the tasks in `done`: the four
      known statuses first, each key once, each count the number of tasks
      spelled like its key, every task's status among the keys, and the
      counts adding up to the number of tasks. */
  predicate TallyOf(done: seq<Task>, keys: seq<string>, counts: seq<int>) {
    && |keys| == |counts| && InitialKeys <= keys
    && Distinct(keys)
    && (forall i :: 0 <= i < |keys| ==> counts[i] == Occurrences(done, keys[i]))
    && (forall j :: 0 <= j < |done| ==> StatusName(done[j].status) in keys)
    && Sum(counts) == |done|
  }

  /** `statusCounts[name] = (statusCounts[name] || 0) + 1`. */
  function Bump(keys: seq<string>, counts: seq<int>, name: string): (seq<string>, seq<int>)
    requires |keys| == |counts|
  {
    var k := IndexOf(keys, name);
    if k < |keys| then (keys, counts[k := counts[k] + 1]) else (keys + [name], counts + [1])
  }

  /** The object literal the tally starts from. */
  lemma InitialTally()
    ensures TallyOf([], InitialKeys, [0, 0, 0, 0])
  {
    assert InitialKeys[0] != InitialKeys[1] && InitialKeys[0] != InitialKeys[2] && InitialKeys[0] != InitialKeys[3] by {
      assert InitialKeys[0][0] == 'N' && InitialKeys[1][0] == 'I' && InitialKeys[2][0] == 'C' && InitialKeys[3][0] == 'O';
    }
    assert InitialKeys[1] != InitialKeys[2] && InitialKeys[1] != InitialKeys[3] && InitialKeys[2] != InitialKeys[3] by {
      assert InitialKeys[1][0] == 'I' && InitialKeys[2][0] == 'C' && InitialKeys[3][0] == 'O';
    }
  }

  /** One more task adds one to the occurrences of its own spelling only. */
  lemma OccurrencesSnoc(done: seq<Task>, x: Task, key: string)
    ensures Occurrences(done + [x], key) == Occurrences(done, key) + (if StatusName(x.status) == key then 1 else 0)
  {
    assert (done + [x])[..|done|] == done;
  }

  /** A status met for the first time has been counted zero times so far. */
  lemma {:induction false} UnseenCountsZero(done: seq<Task>, keys: seq<string>, name: string)
    requires forall j :: 0 <= j < |done| ==> StatusName(done[j].status) in keys
    requires name !in keys
    ensures Occurrences(done, name) == 0
  {
    if |done| > 0 {
      assert StatusName(done[|done| - 1].status) in keys;
      UnseenCountsZero(done[..|done| - 1], keys, name);
    }
  }

  /** Counting a status already among the keys bumps its count. */
  lemma BumpSeen(done: seq<Task>, x: Task, keys: seq<string>, counts: seq<int>)
    requires TallyOf(done, keys, counts)
    requires StatusName(x.status) in keys
    ensures var (keys', counts') := Bump(keys, counts, StatusName(x.status)); TallyOf(done + [x], keys', counts')
  {
    var name := StatusName(x.status);
    var k := IndexOf(keys, name);
    var counts' := counts[k := counts[k] + 1];
    SumUpdate(counts, k, counts[k] + 1);
    forall i | 0 <= i < |keys| ensures counts'[i] == Occurrences(done + [x], keys[i]) {
      OccurrencesSnoc(done, x, keys[i]);
    }
    assert forall j :: 0 <= j < |done + [x]| ==> StatusName((done + [x])[j].status) in keys;
  }

  /** Counting a status seen for the first time appends it with count one. */
  lemma BumpUnseen(done: seq<Task>, x: Task, keys: seq<string>, counts: seq<int>)
    requires TallyOf(done, keys, counts)
    requires StatusName(x.status) !in keys
    ensures var (keys', counts') := Bump(keys, counts, StatusName(x.status)); TallyOf(done + [x], keys', counts')
  {
    var name := StatusName(x.status);
    var keys', counts' := keys + [name], counts + [1];
    UnseenCountsZero(done, keys, name);
    SumSnoc(counts, 1);
    forall i | 0 <= i < |keys'| ensures counts'[i] == Occurrences(done + [x], keys'[i]) {
      OccurrencesSnoc(done, x, keys'[i]);
    }
    forall j | 0 <= j < |done + [x]| ensures StatusName((done + [x])[j].status) in keys' {
      if j < |done| {
        assert StatusName(done[j].status) in keys;
      }
    }
  }

  /** The tally in `createTaskStatusChart`: an object whose keys start as
      the four known statuses and gain each other status when first met,
      counting one per task. `keys` and `counts` are its keys and values in
      insertion order. */
  method StatusTally(tasks: seq<Task>) returns (keys: seq<string>, counts: seq<int>)
    ensures |keys| == |counts| && InitialKeys <= keys
    ensures Distinct(keys)
    ensures forall i :: 0 <= i < |keys| ==> counts[i] == Seqs.Count(tasks, NamedStatus(keys[i]))
    ensures forall i :: 0 <= i < |tasks| ==> StatusName(tasks[i].status) in keys
    ensures Sum(counts) == |tasks|
  {
    keys := InitialKeys;
    counts := [0, 0, 0, 0];
    var n := 0;
    InitialTally();
    while n < |tasks|
      invariant n <= |tasks|
      invariant TallyOf(tasks[..n], keys, counts)
    {
      var name := StatusName(tasks[n].status);
      if name in keys {
        BumpSeen(tasks[..n], tasks[n], keys, counts);
      } else {
        BumpUnseen(tasks[..n], tasks[n], keys, counts);
      }
      assert tasks[..n + 1] == tasks[..n] + [tasks[n]];
      var next := Bump(keys, counts, name);
      keys, counts := next.0, next.1;
      n := n + 1;
    }
    assert tasks[..n] == tasks;
    forall i | 0 <= i < |keys| ensures counts[i] == Seqs.Count(tasks, NamedStatus(keys[i])) {
      OccurrencesIsCount(tasks, keys[i]);
    }
  }

  /** `slice(0, 5)`: the first five items, or all of them when fewer. */
  function Recent<T>(s: seq<T>): (r: seq<T>)
    ensures |r| == if |s| < 5 then |s| else 5
    ensures r <= s
  {
    if |s| < 5 then s else s[..5]
  }

  /** `updateRecentItems`: the first projects and tasks, in list order. */
  function RecentItems(projects: seq<ProjectsView.Project>, tasks: seq<Task>): (r: (seq<ProjectsView.Project>, seq<Task>))
    ensures |r.0| == if |projects| < 5 then |projects| else 5
    ensures |r.1| == if |tasks| < 5 then |tasks| else 5
    ensures r.0 <= projects && r.1 <= tasks
    ensures |projects| <= 5 ==> r.0 == projects
    ensures |tasks| <= 5 ==> r.1 == tasks
  {
    (Recent(projects), Recent(tasks))
  }

  /** Putting an item in front of a list makes it the first recent item
      and pushes the others back by one. */
  lemma RecentPrepend<T>(x: T, s: seq<T>)
    ensures var r := Recent([x] + s);
      r[0] == x && r[1..] == Recent(s)[..|r| - 1]
  {
    var r := Recent([x] + s);
    assert r == ([x] + s)[..|r|];
    assert ([x] + s)[..|r|][1..] == s[..|r| - 1];
  }

  /** A project just created heads the recent-projects list, and the rest
      of that list are the projects that were recent before, less the one
      pushed off the end. */
  lemma CreatedProjectIsRecent(m: ProjectsView.ProjectsManager, f: ProjectsView.ProjectForm, newId: int, today: int,
                               tasks: seq<Task>)
    ensures var r := ProjectsView.CreateProject(m, f, newId, today);
      r.Ok? ==>
        var recent := RecentItems(r.value.projects, tasks).0;
        && recent[0] == r.value.projects[0]
        && recent[1..] == Recent(m.projects)[..|recent| - 1]
  {
    var r := ProjectsView.CreateProject(m, f, newId, today);
    if r.Ok? {
      var ps := r.value.projects;
      assert ps == [ps[0]] + m.projects;
      RecentPrepend(ps[0], m.projects);
    }
  }

  /** `getStatusColor`: one map for project and task statuses, falling back
      to "secondary". */
  function StatusColor(key: string): (r: string)
    ensures key == "ACTIVE" ==> r == "primary"
    ensures key == "COMPLETED" ==> r == "success"
    ensures key == "ON_HOLD" ==> r == "warning"
    ensures key == "CANCELLED" ==> r == "danger"
    ensures key == "IN_PROGRESS" ==> r == "info"
    ensures key !in ["ACTIVE", "COMPLETED", "ON_HOLD", "CANCELLED", "IN_PROGRESS"] ==> r == "secondary"
  {
    if key == "ACTIVE" then "primary"
    else if key == "COMPLETED" then "success"
    else if key == "ON_HOLD" then "warning"
    else if key == "CANCELLED" then "danger"
    else if key == "IN_PROGRESS" then "info"
    else "secondary"
  }

  /** A completed or held task is coloured like a completed or held
      project, since both are keyed by the same spelling. */
  lemma SharedSpellingsShareColours()
    ensures StatusColor(StatusName(Completed)) == StatusColor(ProjectStatusName(ProjectCompleted)) == "success"
    ensures StatusColor(StatusName(OnHold)) == StatusColor(ProjectStatusName(ProjectOnHold)) == "warning"
  {
  }

  /** `toggleTheme`: "light" becomes "dark", anything else "light". */
  function ToggleTheme(theme: string): (r: string)
    ensures r == "dark" || r == "light"
    ensures r == "dark" <==> theme == "light"
  {
    if theme == "light" then "dark" else "light"
  }

  /** Two flips restore either theme; a stored value that is neither
      comes back as "dark". */
  lemma ToggleThemeTwice(theme: string)
    ensures theme == "light" || theme == "dark" ==> ToggleTheme(ToggleTheme(theme)) == theme
    ensures theme != "light" && theme != "dark" ==> ToggleTheme(ToggleTheme(theme)) == "dark"
  {
  }
}
