/** The browser's project list (frontend/js/projects.js): creation from the
    form with its tag parsing, deletion, the filter-and-sort, the progress
    colour and the lookup by id. Clock readings and new ids are parameters,
    `lower` stands for `toLowerCase` and `collate` for `localeCompare`. */
module ProjectsView {
  import opened Wrappers
  import opened Model
  import Seqs
  import Sorting
  import Text

  /** A project record as the browser keeps it; dates are day numbers. */
  datatype Project = Project(
    id: int,
    name: string,
    description: string,
    status: ProjectStatus,
    progress: int,
    tags: seq<string>,
    startDate: string,
    endDate: string,
    createdAt: int,
    updatedAt: int)

  /** The master list and the displayed list. */
  datatype ProjectsManager = ProjectsManager(projects: seq<Project>, filteredProjects: seq<Project>)

  /** The creation form's raw field values. */
  datatype ProjectForm = ProjectForm(name: string, description: string, tags: string, startDate: string, endDate: string)

  /** A tag the parser keeps: non-empty, trimmed and comma-free. */
  predicate CleanTag(tag: string) {
    && tag != ""
    && !Text.IsWhitespace(tag[0]) && !Text.IsWhitespace(tag[|tag| - 1])
    && ',' !in tag
  }

  function NonEmpty(): string -> bool {
    (tag: string) => tag != ""
  }

  /** A trimmed piece of a comma split: comma-free with no whitespace at
      either end, possibly empty. */
  predicate TrimmedPiece(tag: string) {
    && ',' !in tag
    && (tag == "" || (!Text.IsWhitespace(tag[0]) && !Text.IsWhitespace(tag[|tag| - 1])))
  }

  /** `map(tag => tag.trim())` over the pieces of a comma split. */
  function TrimPieces(pieces: seq<string>): (r: seq<string>)
    ensures |r| == |pieces|
    ensures forall i :: 0 <= i < |r| ==> r[i] == Text.Trim(pieces[i])
  {
    if |pieces| == 0 then [] else [Text.Trim(pieces[0])] + TrimPieces(pieces[1..])
  }

  /** Trimming comma-free pieces leaves trimmed, comma-free pieces. */
  lemma TrimmedPieces(pieces: seq<string>, trimmed: seq<string>)
    requires forall i :: 0 <= i < |pieces| ==> ',' !in pieces[i]
    requires trimmed == TrimPieces(pieces)
    ensures forall i :: 0 <= i < |trimmed| ==> TrimmedPiece(trimmed[i])
  {
    forall i | 0 <= i < |trimmed| ensures TrimmedPiece(trimmed[i]) {
      if ',' in trimmed[i] {
        Text.TrimKeepsChars(pieces[i], ',');
      }
    }
  }

  /** Trimming pieces that are already trimmed changes nothing. */
  lemma TrimPiecesFixed(tags: seq<string>)
    requires forall i :: 0 <= i < |tags| ==> CleanTag(tags[i])
    ensures TrimPieces(tags) == tags
  {
    var r := TrimPieces(tags);
    forall i | 0 <= i < |tags| ensures r[i] == tags[i] {
      Text.TrimmedIsFixed(tags[i]);
    }
  }

  /** `split(',').map(tag => tag.trim()).filter(tag => tag)`: every tag
      kept is clean. */
  function ParseTags(raw: string): (r: seq<string>)
    ensures forall i :: 0 <= i < |r| ==> CleanTag(r[i])
  {
    var pieces := Text.Split(raw, ',');
    var trimmed := TrimPieces(pieces);
    TrimmedPieces(pieces, trimmed);
    var r := Seqs.Filter(trimmed, NonEmpty());
    NonEmptyPiecesClean(trimmed, r);
    r
  }

  /** Dropping the empty ones from trimmed pieces leaves clean tags. */
  lemma NonEmptyPiecesClean(trimmed: seq<string>, r: seq<string>)
    requires forall i :: 0 <= i < |trimmed| ==> TrimmedPiece(trimmed[i])
    requires r == Seqs.Filter(trimmed, NonEmpty())
    ensures forall i :: 0 <= i < |r| ==> CleanTag(r[i])
  {
    forall i | 0 <= i < |r| ensures CleanTag(r[i]) {
      assert r[i] in r;
      var j :| 0 <= j < |trimmed| && trimmed[j] == r[i];
    }
  }

  /** Clean tags typed with commas between them are parsed back exactly. */
  lemma ParseTagsJoin(tags: seq<string>)
    requires |tags| >= 1
    requires forall i :: 0 <= i < |tags| ==> CleanTag(tags[i])
    ensures ParseTags(Text.Join(tags, ',')) == tags
  {
    Text.SplitJoin(tags, ',');
    assert Text.Split(Text.Join(tags, ','), ',') == tags;
    TrimPiecesFixed(tags);
    Seqs.FilterKeepsAll(tags, NonEmpty());
  }

  /** `createProject`. An empty name is refused with the source's message;
      otherwise the new project, ACTIVE at progress 0 with the form's start and
      end dates, creation and update dates set to today and the parsed tags, goes to the front and the displayed list
      becomes the whole list. */
  function CreateProject(m: ProjectsManager, f: ProjectForm, newId: int, today: int): (r: Result<ProjectsManager>)
    ensures f.name == "" <==> r == Err("Project name is required")
    ensures r.Ok? ==>
      && |r.value.projects| == |m.projects| + 1
      && r.value.projects[1..] == m.projects
      && r.value.filteredProjects == r.value.projects
      && var p := r.value.projects[0];
         && p.id == newId && p.name == f.name && p.description == f.description
         && p.status == Active && p.progress == 0
         && p.createdAt == today && p.updatedAt == today
         && p.startDate == f.startDate && p.endDate == f.endDate
         && p.tags == ParseTags(f.tags)
  {
    if f.name == "" then Err("Project name is required")
    else
      var p := Project(newId, f.name, f.description, Active, 0, ParseTags(f.tags),
                       f.startDate, f.endDate, today, today);
      var projects := [p] + m.projects;
      Ok(ProjectsManager(projects, projects))
  }

  function LacksProjectId(id: int): Project -> bool {
    (p: Project) => p.id != id
  }

  /** `deleteProject` once confirmed: both lists lose exactly the projects
      with the id, the rest keep their order. Tasks of the project are not
      touched: the manager does not hold them. */
  function DeleteProject(m: ProjectsManager, id: int): (r: ProjectsManager)
    ensures forall p :: p in r.projects <==> p in m.projects && p.id != id
    ensures forall p :: p in r.filteredProjects <==> p in m.filteredProjects && p.id != id
    ensures forall p: Project :: multiset(r.projects)[p] == if p.id != id then multiset(m.projects)[p] else 0
    ensures forall p: Project :: multiset(r.filteredProjects)[p] == if p.id != id then multiset(m.filteredProjects)[p] else 0
    ensures Seqs.IsSubsequence(r.projects, m.projects) && Seqs.IsSubsequence(r.filteredProjects, m.filteredProjects)
  {
    ProjectsManager(Seqs.Filter(m.projects, LacksProjectId(id)), Seqs.Filter(m.filteredProjects, LacksProjectId(id)))
  }

  /** Deleting twice is deleting once. */
  lemma DeleteProjectIdempotent(m: ProjectsManager, id: int)
    ensures DeleteProject(DeleteProject(m, id), id) == DeleteProject(m, id)
  {
    Seqs.FilterIdempotent(m.projects, LacksProjectId(id));
    Seqs.FilterIdempotent(m.filteredProjects, LacksProjectId(id));
  }

  /** The filter controls: the raw search text, the status select (`None`
      when empty) and the sort key. */
  datatype ProjectFilter = ProjectFilter(search: string, status: Option<ProjectStatus>, sortBy: string)

  /** Some tag contains the lowered search term once lowered itself. */
  predicate TagMatches(tags: seq<string>, term: string, lower: string -> string) {
    exists i :: 0 <= i < |tags| && Text.Contains(lower(tags[i]), term)
  }

  /** The test `filterProjects` applies to each project. */
  function ProjectMatches(f: ProjectFilter, lower: string -> string): Project -> bool {
    (p: Project) =>
      var term := lower(f.search);
      && (Text.Contains(lower(p.name), term) || Text.Contains(lower(p.description), term)
          || TagMatches(p.tags, term, lower))
      && (!ProjectStatusChosen(f.status) || p.status == f.status.value)
  }

  function ByName(collate: (string, string) -> int): (Project, Project) -> int {
    (a: Project, b: Project) => collate(a.name, b.name)
  }

  function ByProgress(a: Project, b: Project): int {
    b.progress - a.progress
  }

  function ByUpdatedAt(a: Project, b: Project): int {
    b.updatedAt - a.updatedAt
  }

  function ByCreatedAt(a: Project, b: Project): int {
    b.createdAt - a.createdAt
  }

  /** The comparator the sort select chooses; anything but the three other
      keys sorts by creation, newest first. */
  function ProjectComparator(sortBy: string, collate: (string, string) -> int): (Project, Project) -> int {
    if sortBy == "name" then ByName(collate)
    else if sortBy == "progress" then ByProgress
    else if sortBy == "updatedAt" then ByUpdatedAt
    else ByCreatedAt
  }

  /** `filterProjects`: the matching projects, each as often as in the
      list, sorted by the chosen key. */
  function FilterProjects(projects: seq<Project>, f: ProjectFilter, lower: string -> string,
                          collate: (string, string) -> int): (r: seq<Project>)
    ensures |r| <= |projects|
    ensures forall p :: p in r <==> p in projects && ProjectMatches(f, lower)(p)
    ensures forall p :: multiset(r)[p] == if ProjectMatches(f, lower)(p) then multiset(projects)[p] else 0
  {
    Sorting.Sort(Seqs.Filter(projects, ProjectMatches(f, lower)), ProjectComparator(f.sortBy, collate))
  }

  function Progress(p: Project): int { p.progress }
  function UpdatedAt(p: Project): int { p.updatedAt }
  function CreatedAt(p: Project): int { p.createdAt }

  lemma SortsByKey(projects: seq<Project>, f: ProjectFilter, lower: string -> string, collate: (string, string) -> int,
                   cmp: (Project, Project) -> int, key: Project -> int)
    requires ProjectComparator(f.sortBy, collate) == cmp
    requires forall a, b :: cmp(a, b) == key(b) - key(a)
    ensures var r := FilterProjects(projects, f, lower, collate);
      forall i, j :: 0 <= i < j < |r| ==> key(r[i]) >= key(r[j])
  {
    var kept := Seqs.Filter(projects, ProjectMatches(f, lower));
    Sorting.SortByKeyDescending(kept, cmp, key);
    assert FilterProjects(projects, f, lower, collate) == Sorting.Sort(kept, cmp);
  }

  /** Sorted by progress, the most advanced project comes first. */
  lemma ProgressSortOrder(projects: seq<Project>, f: ProjectFilter, lower: string -> string, collate: (string, string) -> int)
    requires f.sortBy == "progress"
    ensures var r := FilterProjects(projects, f, lower, collate);
      forall i, j :: 0 <= i < j < |r| ==> r[i].progress >= r[j].progress
  {
    SortsByKey(projects, f, lower, collate, ByProgress, Progress);
  }

  /** Sorted by last update, the most recently updated comes first. */
  lemma UpdatedAtSortOrder(projects: seq<Project>, f: ProjectFilter, lower: string -> string, collate: (string, string) -> int)
    requires f.sortBy == "updatedAt"
    ensures var r := FilterProjects(projects, f, lower, collate);
      forall i, j :: 0 <= i < j < |r| ==> r[i].updatedAt >= r[j].updatedAt
  {
    SortsByKey(projects, f, lower, collate, ByUpdatedAt, UpdatedAt);
  }

  /** By default the newest project comes first. */
  lemma CreatedAtSortOrder(projects: seq<Project>, f: ProjectFilter, lower: string -> string, collate: (string, string) -> int)
    requires f.sortBy != "name" && f.sortBy != "progress" && f.sortBy != "updatedAt"
    ensures var r := FilterProjects(projects, f, lower, collate);
      forall i, j :: 0 <= i < j < |r| ==> r[i].createdAt >= r[j].createdAt
  {
    SortsByKey(projects, f, lower, collate, ByCreatedAt, CreatedAt);
  }

  /** Sorted by name, names follow a collation that is a total preorder. */
  lemma NameSortOrder(projects: seq<Project>, f: ProjectFilter, lower: string -> string, collate: (string, string) -> int)
    requires f.sortBy == "name"
    requires forall a, b :: collate(a, b) <= 0 || collate(b, a) <= 0
    requires forall a, b, c :: collate(a, b) <= 0 && collate(b, c) <= 0 ==> collate(a, c) <= 0
    ensures var r := FilterProjects(projects, f, lower, collate);
      forall i, j :: 0 <= i < j < |r| ==> collate(r[i].name, r[j].name) <= 0
  {
    var cmp := ByName(collate);
    assert ProjectComparator(f.sortBy, collate) == cmp;
    forall a, b | true ensures cmp(a, b) <= 0 || cmp(b, a) <= 0 {
      assert collate(a.name, b.name) <= 0 || collate(b.name, a.name) <= 0;
    }
    forall a, b, c | cmp(a, b) <= 0 && cmp(b, c) <= 0 ensures cmp(a, c) <= 0 {
      assert collate(a.name, b.name) <= 0 && collate(b.name, c.name) <= 0;
    }
    var kept := Seqs.Filter(projects, ProjectMatches(f, lower));
    Sorting.SortByPreorder(kept, cmp);
    var r := Sorting.Sort(kept, cmp);
    forall i, j | 0 <= i < j < |r| ensures collate(r[i].name, r[j].name) <= 0 {
      assert cmp(r[i], r[j]) <= 0;
    }
  }

  /** `getProgressColor`'s three bands. */
  function ProgressColor(progress: int): (r: string)
    ensures r == "success" <==> progress >= 80
    ensures r == "warning" <==> 50 <= progress < 80
    ensures r == "danger" <==> progress < 50
  {
    if progress >= 80 then "success"
    else if progress >= 50 then "warning"
    else "danger"
  }

  /** The bands in increasing order. */
  function ColorLevel(color: string): int {
    if color == "success" then 2 else if color == "warning" then 1 else 0
  }

  /** More progress never gives a worse colour. */
  lemma ProgressColorMonotone(a: int, b: int)
    requires a <= b
    ensures ColorLevel(ProgressColor(a)) <= ColorLevel(ProgressColor(b))
  {
  }

  function HasProjectId(id: int): Project -> bool {
    (p: Project) => p.id == id
  }

  /** `getProjectById`: the first project with the id, or nothing when no
      project has it. */
  function GetProjectById(projects: seq<Project>, id: int): (r: Option<Project>)
    ensures r.None? <==> forall p :: p in projects ==> p.id != id
    ensures r.Some? ==> r.value.id == id && exists k :: Seqs.IsFirst(projects, HasProjectId(id), k) && projects[k] == r.value
  {
    match Seqs.FindFirst(projects, HasProjectId(id))
    case None => None
    case Some(k) => Some(projects[k])
  }

  /** The lookup in a list with one project put in front. */
  lemma LookupAfterPrepend(p: Project, ps: seq<Project>, id: int)
    ensures GetProjectById([p] + ps, id) == if p.id == id then Some(p) else GetProjectById(ps, id)
  {
    var s := [p] + ps;
    assert s[1..] == ps;
    if p.id == id {
      assert Seqs.IsFirst(s, HasProjectId(id), 0);
    }
  }

  /** A project created with an id no other project has is the one the
      lookup finds under that id, and every other id finds what it found
      before. */
  lemma CreatedProjectFound(m: ProjectsManager, f: ProjectForm, newId: int, today: int, id: int)
    requires forall p :: p in m.projects ==> p.id != newId
    ensures var r := CreateProject(m, f, newId, today);
      r.Ok? ==>
        && GetProjectById(r.value.projects, newId) == Some(r.value.projects[0])
        && (id != newId ==> GetProjectById(r.value.projects, id) == GetProjectById(m.projects, id))
  {
    var r := CreateProject(m, f, newId, today);
    if r.Ok? {
      var ps := r.value.projects;
      assert ps == [ps[0]] + m.projects;
      LookupAfterPrepend(ps[0], m.projects, newId);
      LookupAfterPrepend(ps[0], m.projects, id);
    }
  }
}
