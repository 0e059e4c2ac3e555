/** routes/project_management/milestones.py: a project's milestones. */
module MilestoneRoutes {
  import opened Wrappers
  import opened Dates
  import opened Forms
  import opened Tables
  import opened Sorting
  import opened Schema

  const TitleRequiredMessage := "Title is required."
  /** The status a form without a Status field gets. The offered statuses are not enforced. */
  const DefaultStatus := "Not Started"
  const CompletedStatus := "Completed"

  /** The milestone form: title, description and dates stripped; status as sent, None when absent. */
  datatype MilestoneForm = MilestoneForm(
    title: string,
    description: string,
    status: Option<string>,
    due: string,
    completed: string)

  /** The milestones of project p, in table order. */
  function OfProject(ms: seq<Milestone>, p: int): (r: seq<Milestone>)
    ensures forall m :: multiset(r)[m] == if m.project == p then multiset(ms)[m] else 0
    ensures forall m :: m in r <==> m in ms && m.project == p
  {
    if ms == [] then []
    else
      assert ms == [ms[0]] + ms[1..];
      (if ms[0].project == p then [ms[0]] else []) + OfProject(ms[1..], p)
  }

  /** `ORDER BY Due_Date IS NULL, Due_Date`: dated milestones first, by due date. */
  function DueOrder(m: Milestone): seq<int> {
    match m.due
    case None => [1, 0, 0, 0]
    case Some(d) => [0, d.year, d.month, d.day]
  }

  /** What the sort key promises about two milestones it puts in that order. */
  lemma DueOrderMeaning(a: Milestone, b: Milestone)
    requires LexLe(DueOrder(a), DueOrder(b))
    ensures a.due.None? ==> b.due.None?
    ensures a.due.Some? && b.due.Some? ==> NotAfter(a.due.value, b.due.value)
  {
    var ka, kb := DueOrder(a), DueOrder(b);
    LexLeHead(ka, kb);
    if a.due.Some? && b.due.Some? {
      LexLeHead(ka[1..], kb[1..]);
      if ka[1] == kb[1] {
        LexLeHead(ka[2..], kb[2..]);
        assert ka[2..][1..] == ka[3..] && kb[2..][1..] == kb[3..];
        if ka[2] == kb[2] {
          LexLeHead(ka[3..], kb[3..]);
        }
      }
    }
  }

  /** list_milestones: the project's milestones, undated ones last, dated ones by due date. */
  function ListMilestones(projects: seq<Project>, ms: seq<Milestone>, p: int): (r: Result<seq<Milestone>>)
    ensures r.Failure? <==> !HasKey(projects, ProjectKey, p)
    ensures r.Failure? ==> r.error == NotFound
    ensures r.Success? ==> multiset(r.value) == multiset(OfProject(ms, p))
    ensures r.Success? ==> forall i, j :: 0 <= i < j < |r.value| && r.value[i].due.None? ==> r.value[j].due.None?
    ensures r.Success? ==> forall i, j :: 0 <= i < j < |r.value| && r.value[i].due.Some? && r.value[j].due.Some?
                                          ==> NotAfter(r.value[i].due.value, r.value[j].due.value)
  {
    if Lookup(projects, ProjectKey, p).None? then Failure(NotFound)
    else
      var sorted := SortBy(OfProject(ms, p), DueOrder);
      forall i, j | 0 <= i < j < |sorted|
        ensures sorted[i].due.None? ==> sorted[j].due.None?
        ensures sorted[i].due.Some? && sorted[j].due.Some? ==> NotAfter(sorted[i].due.value, sorted[j].due.value)
      {
        DueOrderMeaning(sorted[i], sorted[j]);
      }
      Success(sorted)
  }

  /**
   * The milestone the form describes under `id` in `project`, past the title check. A malformed
   * non-empty due or completed date raises (there is no try); the description becomes null when empty.
   */
  function MilestoneFromForm(p: Parsers, id: int, project: int, f: MilestoneForm): (r: Result<Milestone>)
    ensures r.Success? <==> OptionalDate(p, f.due).Some? && OptionalDate(p, f.completed).Some?
    ensures r.Failure? ==> r.error == Raised(ValueError)
    ensures r.Success? ==> r.value.id == id && r.value.project == project && r.value.title == f.title
    ensures r.Success? ==> r.value.description == OrNone(f.description) && r.value.status == f.status.GetOr(DefaultStatus)
    ensures r.Success? ==> r.value.due == OptionalDate(p, f.due).value && r.value.completed == OptionalDate(p, f.completed).value
    ensures r.Success? ==> (r.value.due.None? <==> f.due == "") && (r.value.completed.None? <==> f.completed == "")
  {
    match (OptionalDate(p, f.due), OptionalDate(p, f.completed))
    case (Some(due), Some(completed)) =>
      Success(Milestone(id, project, f.title, OrNone(f.description), f.status.GetOr(DefaultStatus), due, completed))
    case _ => Failure(Raised(ValueError))
  }

  /** create_milestone up to the commit: the project comes from the URL, the id is the next free one. */
  function NewMilestone(projects: seq<Project>, rows: seq<Milestone>, p: Parsers, project: int, f: MilestoneForm)
    : (r: Result<Milestone>)
    ensures !HasKey(projects, ProjectKey, project) ==> r == Failure(NotFound)
    ensures HasKey(projects, ProjectKey, project) && f.title == "" ==> r == Failure(Rejected(TitleRequiredMessage))
    ensures HasKey(projects, ProjectKey, project) && f.title != ""
            ==> r == MilestoneFromForm(p, NextId(rows, MilestoneKey), project, f)
    ensures r.Success? ==> !HasKey(rows, MilestoneKey, r.value.id) && r.value.project == project
  {
    if Lookup(projects, ProjectKey, project).None? then Failure(NotFound)
    else if f.title == "" then Failure(Rejected(TitleRequiredMessage))
    else MilestoneFromForm(p, NextId(rows, MilestoneKey), project, f)
  }

  /**
   * edit_milestone up to the commit. Both the project in the URL and the milestone must exist,
   * but the milestone need not belong to that project; its own project is kept.
   */
  function EditedMilestone(projects: seq<Project>, rows: seq<Milestone>, p: Parsers, project: int, id: int,
                           f: MilestoneForm): (r: Result<Milestone>)
    ensures !HasKey(projects, ProjectKey, project) || !HasKey(rows, MilestoneKey, id) ==> r == Failure(NotFound)
    ensures (HasKey(projects, ProjectKey, project) && HasKey(rows, MilestoneKey, id) && f.title == "")
            ==> r == Failure(Rejected(TitleRequiredMessage))
    ensures (HasKey(projects, ProjectKey, project) && HasKey(rows, MilestoneKey, id) && f.title != "")
            ==> r == MilestoneFromForm(p, id, Lookup(rows, MilestoneKey, id).value.project, f)
    ensures r.Success? ==> r.value.id == id && r.value.project == Lookup(rows, MilestoneKey, id).value.project
  {
    if Lookup(projects, ProjectKey, project).None? then Failure(NotFound)
    else match Lookup(rows, MilestoneKey, id)
      case None => Failure(NotFound)
      case Some(m) =>
        if f.title == "" then Failure(Rejected(TitleRequiredMessage))
        else MilestoneFromForm(p, id, m.project, f)
  }

  /** The ProjectMilestone table. */
  class MilestoneTable {
    var rows: seq<Milestone>

    ghost predicate Valid()
      reads this
    {
      UniqueKeys(rows, MilestoneKey)
    }

    constructor ()
      ensures Valid() && rows == []
    {
      rows := [];
    }

    /** create_milestone (POST) for `project`. */
    method Create(projects: seq<Project>, p: Parsers, project: int, f: MilestoneForm, commitOk: bool)
      returns (r: Result<Milestone>)
      requires Valid()
      modifies this
      ensures Valid()
      ensures r == Commit(NewMilestone(projects, old(rows), p, project, f), commitOk)
      ensures rows == if r.Success? then old(rows) + [r.value] else old(rows)
      ensures r.Success? ==> Lookup(rows, MilestoneKey, r.value.id) == Some(r.value)
    {
      r := Commit(NewMilestone(projects, rows, p, project, f), commitOk);
      if r.Success? {
        InsertFresh(rows, MilestoneKey, r.value);
        rows := rows + [r.value];
      }
    }

    /** edit_milestone (POST). */
    method Edit(projects: seq<Project>, p: Parsers, project: int, id: int, f: MilestoneForm, commitOk: bool)
      returns (r: Result<Milestone>)
      requires Valid()
      modifies this
      ensures Valid()
      ensures r == Commit(EditedMilestone(projects, old(rows), p, project, id, f), commitOk)
      ensures rows == if r.Success? then Replace(old(rows), MilestoneKey, r.value) else old(rows)
      ensures r.Success? ==> Keys(rows, MilestoneKey) == Keys(old(rows), MilestoneKey)
    {
      r := Commit(EditedMilestone(projects, rows, p, project, id, f), commitOk);
      if r.Success? {
        rows := Replace(rows, MilestoneKey, r.value);
      }
    }

    /**
     * delete_milestone: the project in the URL is not looked up, and the commit has no try,
     * so a refused commit escapes. Success carries the deleted row.
     */
    method Delete(id: int, commitOk: bool) returns (r: Result<Milestone>)
      requires Valid()
      modifies this
      ensures Valid()
      ensures !HasKey(old(rows), MilestoneKey, id) ==> r == Failure(NotFound)
      ensures HasKey(old(rows), MilestoneKey, id) && !commitOk ==> r == Failure(Raised(CommitError))
      ensures HasKey(old(rows), MilestoneKey, id) && commitOk ==> r == Success(Lookup(old(rows), MilestoneKey, id).value)
      ensures r.Success? ==> Lookup(old(rows), MilestoneKey, id) == Some(r.value)
      ensures rows == if r.Success? then Remove(old(rows), MilestoneKey, id) else old(rows)
    {
      match Lookup(rows, MilestoneKey, id)
      case None =>
        r := Failure(NotFound);
      case Some(m) =>
        r := Commit(Success(m), commitOk);
        if r.Success? {
          RemoveKeepsUnique(rows, MilestoneKey, id);
          rows := Remove(rows, MilestoneKey, id);
        }
    }
  }
}
