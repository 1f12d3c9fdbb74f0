/** The JPA project entity (src/main/java/com/worksync/model/Project.java):
    its field defaults, its integer progress formula and its ordinal role
    check. The order of the Java `MemberRole` enum is not part of this
    model, so roles are any type `R` with a caller-supplied `ordinal`. */
module ProjectEntity {
  import opened Model
  import opened Percent
  import Seqs

  datatype Member<R> = Member(userId: int, role: R)

  datatype Entity<R> = Entity(
    name: string,
    description: string,
    status: ProjectStatus,
    ownerId: int,
    members: seq<Member<R>>,
    tasks: seq<Task>,
    tags: seq<string>,
    progress: int)

  /** `new Project(name, description, owner)`: the field initialisers give
      status ACTIVE, progress 0 and empty member, task and tag lists. */
  function NewEntity<R>(name: string, description: string, ownerId: int): (p: Entity<R>)
    ensures p.status == Active && p.progress == 0
    ensures p.members == [] && p.tasks == [] && p.tags == []
    ensures p.name == name && p.description == description && p.ownerId == ownerId
  {
    Entity(name, description, Active, ownerId, [], [], [], 0)
  }

  /** A fresh project's stored progress is already what recomputing it gives. */
  lemma NewEntityProgressIsCurrent<R>(name: string, description: string, ownerId: int)
    ensures UpdateProgress(NewEntity<R>(name, description, ownerId)) == NewEntity<R>(name, description, ownerId)
  {
  }

  /** `updateProgress`: 0 for no tasks, otherwise completed·100 / size in
      integer division; the result is 100 exactly when every task is completed. */
  function UpdateProgress<R>(p: Entity<R>): (r: Entity<R>)
    ensures r == p.(progress := r.progress)
    ensures 0 <= r.progress <= 100
    ensures |p.tasks| == 0 ==> r.progress == 0
    ensures |p.tasks| > 0 ==>
      var done := Seqs.Count(p.tasks, IsCompleted);
      |p.tasks| * r.progress <= 100 * done < |p.tasks| * (r.progress + 1)
    ensures |p.tasks| > 0 ==> (r.progress == 100 <==> forall i :: 0 <= i < |p.tasks| ==> p.tasks[i].status == Completed)
  {
    if |p.tasks| == 0 then p.(progress := 0)
    else
      var done := Seqs.Count(p.tasks, IsCompleted);
      AllCompletedCount(p.tasks);
      p.(progress := FloorPercent(done, |p.tasks|))
  }

  /** The count of completed tasks reaches the list length exactly when all are completed. */
  lemma AllCompletedCount(tasks: seq<Task>)
    ensures Seqs.Count(tasks, IsCompleted) == |tasks| <==> forall i :: 0 <= i < |tasks| ==> tasks[i].status == Completed
  {
    var done := Seqs.Filter(tasks, IsCompleted);
    if forall i :: 0 <= i < |tasks| ==> tasks[i].status == Completed {
      Seqs.FilterKeepsAll(tasks, IsCompleted);
    } else {
      var i :| 0 <= i < |tasks| && tasks[i].status != Completed;
      assert multiset(done)[tasks[i]] == 0;
      assert multiset(tasks)[tasks[i]] > 0;
      if |done| == |tasks| {
        SameLengthFilterIsWhole(tasks, IsCompleted);
      }
    }
  }

  /** A filter that keeps as many elements as it was given kept all of them. */
  lemma {:induction false} SameLengthFilterIsWhole<T(!new)>(s: seq<T>, p: T -> bool)
    requires |Seqs.Filter(s, p)| == |s|
    ensures Seqs.Filter(s, p) == s
  {
    if |s| > 0 {
      assert |Seqs.Filter(s[1..], p)| <= |s| - 1;
      SameLengthFilterIsWhole(s[1..], p);
    }
  }

  /** The Java floor is never above the JavaScript rounding of the backend
      for the same task list, and at most one below it. */
  lemma FloorTrailsRound<R>(p: Entity<R>)
    requires |p.tasks| > 0
    ensures var done := Seqs.Count(p.tasks, IsCompleted);
      UpdateProgress(p).progress <= RoundPercent(done, |p.tasks|) <= UpdateProgress(p).progress + 1
  {
    FloorAtMostRound(Seqs.Count(p.tasks, IsCompleted), |p.tasks|);
  }

  /** Some entry of `members` is `userId` with a role ranked at least `required`. */
  function AnyMemberGrants<R>(members: seq<Member<R>>, userId: int, required: R, ordinal: R -> int): (r: bool)
    ensures r <==> exists i :: 0 <= i < |members| && members[i].userId == userId && ordinal(members[i].role) >= ordinal(required)
  {
    if |members| == 0 then false
    else if members[0].userId == userId && ordinal(members[0].role) >= ordinal(required) then
      true
    else
      var rest := AnyMemberGrants(members[1..], userId, required, ordinal);
      assert forall i :: 1 <= i < |members| ==> members[i] == members[1..][i - 1];
      rest
  }

  /** `hasAccess`: the owner always; anyone else when any member entry with
      their id carries a role whose ordinal reaches the required one. */
  function HasAccess<R>(p: Entity<R>, userId: int, required: R, ordinal: R -> int): (r: bool)
    ensures userId == p.ownerId ==> r
    ensures userId != p.ownerId ==>
      (r <==> exists i :: 0 <= i < |p.members| && p.members[i].userId == userId && ordinal(p.members[i].role) >= ordinal(required))
  {
    p.ownerId == userId || AnyMemberGrants(p.members, userId, required, ordinal)
  }

  /** As on the backend, access is downward closed in the required rank. */
  lemma AccessDownwardClosed<R>(p: Entity<R>, userId: int, required: R, lower: R, ordinal: R -> int)
    requires HasAccess(p, userId, required, ordinal)
    requires ordinal(lower) <= ordinal(required)
    ensures HasAccess(p, userId, lower, ordinal)
  {
  }
}
