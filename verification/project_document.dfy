/** The backend project document (server/models/Project.js): the role
    check, team-member upsert and removal, and the progress recomputation,
    taken as a pure function of the task collection it counts. */
module ProjectDocument {
  import opened Wrappers
  import opened Model
  import opened Percent
  import Seqs

  datatype Role = Viewer | Editor | Admin | OtherRole(name: string)

  datatype TeamMember = TeamMember(user: int, role: Role, joinedAt: int)

  datatype ProjectDoc = ProjectDoc(id: int, owner: int, team: seq<TeamMember>, progress: int)

  /** `roles.indexOf(role)` over `['viewer', 'editor', 'admin']`; a name
      outside the list gives -1. */
  function RoleIndex(r: Role): int {
    match r
    case Viewer => 0
    case Editor => 1
    case Admin => 2
    case OtherRole(_) => -1
  }

  function IsMember(user: int): TeamMember -> bool {
    (m: TeamMember) => m.user == user
  }

  function IsNotMember(user: int): TeamMember -> bool {
    (m: TeamMember) => m.user != user
  }

  /** `k` is the first team entry for `user`: the one `team.find` returns. */
  predicate FirstEntryAt(team: seq<TeamMember>, user: int, k: int) {
    Seqs.IsFirst(team, IsMember(user), k)
  }

  predicate NoEntry(team: seq<TeamMember>, user: int) {
    Seqs.NoneMatch(team, IsMember(user))
  }

  /** `hasAccess`: the owner passes whatever role is asked for; anyone else
      needs a team entry, and the first entry found must rank at least as
      high as the required role on viewer < editor < admin. A caller that
      omits the required role gets the default 'viewer', modelled by
      passing `Viewer`. */
  function HasAccess(p: ProjectDoc, user: int, required: Role): (r: bool)
    ensures user == p.owner ==> r
    ensures user != p.owner && NoEntry(p.team, user) ==> !r
    ensures forall k :: user != p.owner && FirstEntryAt(p.team, user, k) ==>
      (r <==> RoleIndex(p.team[k].role) >= RoleIndex(required))
  {
    if p.owner == user then true
    else match Seqs.FindFirst(p.team, IsMember(user))
      case None => false
      case Some(k) => RoleIndex(p.team[k].role) >= RoleIndex(required)
  }

  /** Access is downward closed: passing at one level passes every level
      ranked no higher. */
  lemma AccessDownwardClosed(p: ProjectDoc, user: int, required: Role, lower: Role)
    requires HasAccess(p, user, required)
    requires RoleIndex(lower) <= RoleIndex(required)
    ensures HasAccess(p, user, lower)
  {
  }

  /** A member whose entry says admin passes every required role. */
  lemma AdminPassesAll(p: ProjectDoc, user: int, k: int, required: Role)
    requires FirstEntryAt(p.team, user, k) && p.team[k].role == Admin
    ensures HasAccess(p, user, required)
  {
  }

  /** A required role outside the list ranks -1, so every team member
      passes, whatever role their entry holds. */
  lemma UnknownRequiredRoleAdmitsMembers(p: ProjectDoc, user: int, k: int, name: string)
    requires FirstEntryAt(p.team, user, k)
    ensures HasAccess(p, user, OtherRole(name))
  {
  }

  /** What the schema's role `enum` demands of every team entry. `save()`
      rejects a project whose team breaks it. */
  predicate RolesKnown(p: ProjectDoc) {
    forall i :: 0 <= i < |p.team| ==> !p.team[i].role.OtherRole?
  }

  /** `addTeamMember`: an existing entry for `user` (the first one) gets
      the new role and keeps its place and join time; otherwise one entry
      joining now is appended. A caller that omits the role gets the default
      'viewer', modelled by passing `Viewer`. A role outside the enum makes the document
      handed to `save()` fail the schema; a known role keeps a valid team
      valid. */
  function AddTeamMember(p: ProjectDoc, user: int, role: Role, now: int): (r: ProjectDoc)
    ensures r == p.(team := r.team)
    ensures role.OtherRole? ==> !RolesKnown(r)
    ensures RolesKnown(p) && !role.OtherRole? ==> RolesKnown(r)
    ensures NoEntry(p.team, user) ==> r.team == p.team + [TeamMember(user, role, now)]
    ensures forall k :: FirstEntryAt(p.team, user, k) ==>
      && |r.team| == |p.team|
      && r.team[k] == p.team[k].(role := role)
      && forall j :: 0 <= j < |p.team| && j != k ==> r.team[j] == p.team[j]
  {
    match Seqs.FindFirst(p.team, IsMember(user))
    case None =>
      var team := p.team + [TeamMember(user, role, now)];
      assert team[|p.team|].role == role;
      p.(team := team)
    case Some(k) =>
      var team := p.team[k := p.team[k].(role := role)];
      assert team[k].role == role;
      p.(team := team)
  }

  /** Adding the same user with the same role twice gives the team that
      adding once gives. */
  lemma AddTeamMemberIdempotent(p: ProjectDoc, user: int, role: Role, now: int, later: int)
    ensures AddTeamMember(AddTeamMember(p, user, role, now), user, role, later) == AddTeamMember(p, user, role, now)
  {
    var once := AddTeamMember(p, user, role, now);
    match Seqs.FindFirst(p.team, IsMember(user))
    case None =>
      assert FirstEntryAt(once.team, user, |p.team|);
    case Some(k) =>
      assert FirstEntryAt(once.team, user, k);
  }

  /** After adding a user who is not the owner, their access is decided by
      the role just given. */
  lemma AddTeamMemberGrants(p: ProjectDoc, user: int, role: Role, now: int, required: Role)
    requires user != p.owner
    ensures HasAccess(AddTeamMember(p, user, role, now), user, required) <==> RoleIndex(role) >= RoleIndex(required)
  {
    var r := AddTeamMember(p, user, role, now);
    match Seqs.FindFirst(p.team, IsMember(user))
    case None =>
      assert FirstEntryAt(r.team, user, |p.team|);
    case Some(k) =>
      assert FirstEntryAt(r.team, user, k);
  }

  /** `removeTeamMember`: drops every entry for `user` and keeps the others
      in their order. */
  function RemoveTeamMember(p: ProjectDoc, user: int): (r: ProjectDoc)
    ensures r == p.(team := r.team)
    ensures NoEntry(r.team, user)
    ensures forall m: TeamMember :: m in r.team <==> m in p.team && m.user != user
    ensures forall m: TeamMember :: m.user != user ==> multiset(r.team)[m] == multiset(p.team)[m]
    ensures Seqs.IsSubsequence(r.team, p.team)
  {
    var team := Seqs.Filter(p.team, IsNotMember(user));
    assert forall j :: 0 <= j < |team| ==> team[j] in team;
    p.(team := team)
  }

  lemma RemoveTeamMemberIdempotent(p: ProjectDoc, user: int)
    ensures RemoveTeamMember(RemoveTeamMember(p, user), user) == RemoveTeamMember(p, user)
  {
    Seqs.FilterIdempotent(p.team, IsNotMember(user));
  }

  /** Once removed, a user who is not the owner has no access at any level. */
  lemma RemoveTeamMemberRevokes(p: ProjectDoc, user: int, required: Role)
    requires user != p.owner
    ensures !HasAccess(RemoveTeamMember(p, user), user, required)
  {
  }

  function CompletedIn(projectId: int): Task -> bool {
    (t: Task) => t.projectId == Some(projectId) && t.status == Completed
  }

  /** Completed tasks of a project are among its tasks. */
  lemma CompletedWithinProject(tasks: seq<Task>, projectId: int)
    ensures Seqs.Count(tasks, CompletedIn(projectId)) <= Seqs.Count(tasks, InProject(projectId))
  {
    assert forall t :: CompletedIn(projectId)(t) ==> InProject(projectId)(t);
    Seqs.CountImplies(tasks, CompletedIn(projectId), InProject(projectId));
  }

  /** The progress `updateProgress` computes from the two counts it asks
      the database for: 0 with no tasks, else the rounded share of completed ones. */
  function ProjectProgress(tasks: seq<Task>, projectId: int): (r: nat)
    ensures r <= 100
    ensures Seqs.Count(tasks, InProject(projectId)) == 0 ==> r == 0
    ensures var total, done := Seqs.Count(tasks, InProject(projectId)), Seqs.Count(tasks, CompletedIn(projectId));
      total > 0 ==> done <= total && r == RoundPercent(done, total)
  {
    var total := Seqs.Count(tasks, InProject(projectId));
    var done := Seqs.Count(tasks, CompletedIn(projectId));
    CompletedWithinProject(tasks, projectId);
    if total > 0 then RoundPercent(done, total) else 0
  }

  /** `updateProgress`: only the progress field changes, and it stays in 0..100. */
  function UpdateProgress(p: ProjectDoc, tasks: seq<Task>): (r: ProjectDoc)
    ensures r == p.(progress := r.progress)
    ensures 0 <= r.progress <= 100
    ensures r.progress == ProjectProgress(tasks, p.id)
  {
    p.(progress := ProjectProgress(tasks, p.id))
  }

  /** Marking a task of the project completed never lowers its progress. */
  lemma {:induction false} CompletingRaisesProgress(tasks: seq<Task>, projectId: int, k: nat, y: Task)
    requires k < |tasks| && tasks[k].projectId == Some(projectId)
    requires y.projectId == tasks[k].projectId && y.status == Completed
    ensures ProjectProgress(tasks[k := y], projectId) >= ProjectProgress(tasks, projectId)
  {
    ProgressAfterUpdate(tasks, projectId, k, y);
  }

  /** Moving a task of the project away from completed never raises its progress. */
  lemma {:induction false} ReopeningLowersProgress(tasks: seq<Task>, projectId: int, k: nat, y: Task)
    requires k < |tasks| && tasks[k].projectId == Some(projectId)
    requires y.projectId == tasks[k].projectId && y.status != Completed
    ensures ProjectProgress(tasks[k := y], projectId) <= ProjectProgress(tasks, projectId)
  {
    ProgressAfterUpdate(tasks, projectId, k, y);
  }

  /** Replacing a task of the project by one of the same project keeps the
      total and moves the completed count by at most one, in the direction
      of the new status; progress follows. */
  lemma {:induction false} ProgressAfterUpdate(tasks: seq<Task>, projectId: int, k: nat, y: Task)
    requires k < |tasks| && tasks[k].projectId == Some(projectId) && y.projectId == tasks[k].projectId
    ensures y.status == Completed ==> ProjectProgress(tasks[k := y], projectId) >= ProjectProgress(tasks, projectId)
    ensures y.status != Completed ==> ProjectProgress(tasks[k := y], projectId) <= ProjectProgress(tasks, projectId)
  {
    var after := tasks[k := y];
    Seqs.CountUpdate(tasks, k, y, InProject(projectId));
    Seqs.CountUpdate(tasks, k, y, CompletedIn(projectId));
    CompletedWithinProject(tasks, projectId);
    CompletedWithinProject(after, projectId);
    var total := Seqs.Count(tasks, InProject(projectId));
    var before, now := Seqs.Count(tasks, CompletedIn(projectId)), Seqs.Count(after, CompletedIn(projectId));
    assert total > 0;
    if y.status == Completed {
      RoundMonotone(before, now, total);
    } else {
      RoundMonotone(now, before, total);
    }
  }
}
