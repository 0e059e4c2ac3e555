/** routes/projects.py: create, edit and delete on the Project table. */
module ProjectRoutes {
  import opened Wrappers
  import opened Dates
  import opened Forms
  import opened Tables
  import opened Schema

  const RequiredMessage := "Project number, department, and manager are required."
  const NotIntegerMessage := "Project number must be an integer."
  const DuplicateMessage := "A project with that number already exists."
  const BadStartMessage := "Invalid start date."
  const BadEndMessage := "Invalid end date."
  const EditRequiredMessage := "Department and manager are required."

  /** The project form besides the number: budget and dates stripped, department and manager as sent. */
  datatype ProjectForm = ProjectForm(
    budget: string,
    started: string,
    ended: string,
    department: string,
    manager: string)

  /**
   * The row the form describes, from the date checks on: a malformed date is shown again,
   * `int(manager)` may raise, and the store reads the budget when the row is flushed.
   * Start and end are not compared.
   */
  function ProjectFromForm(p: Parsers, no: int, f: ProjectForm): (r: Result<Project>)
    ensures OptionalDate(p, f.started).None? ==> r == Failure(Rejected(BadStartMessage))
    ensures OptionalDate(p, f.started).Some? && OptionalDate(p, f.ended).None? ==> r == Failure(Rejected(BadEndMessage))
    ensures OptionalDate(p, f.started).Some? && OptionalDate(p, f.ended).Some? && p.toInt(f.manager).None?
            ==> r == Failure(Raised(ValueError))
    ensures r.Success? <==> OptionalDate(p, f.started).Some? && OptionalDate(p, f.ended).Some?
                            && p.toInt(f.manager).Some? && OptionalAmount(p, f.budget).Some?
    ensures r.Failure? && r.error.Raised? ==> r.error == Raised(ValueError) || r.error == Raised(CommitError)
    ensures r.Success? ==> r.value.no == no && r.value.department == f.department
    ensures r.Success? ==> r.value.manager == p.toInt(f.manager).value
    ensures r.Success? ==> r.value.started == OptionalDate(p, f.started).value && r.value.ended == OptionalDate(p, f.ended).value
    ensures r.Success? ==> r.value.budget == OptionalAmount(p, f.budget).value
    ensures r.Success? ==> (r.value.budget.None? <==> f.budget == "")
  {
    match OptionalDate(p, f.started)
    case None => Failure(Rejected(BadStartMessage))
    case Some(started) =>
      match OptionalDate(p, f.ended)
      case None => Failure(Rejected(BadEndMessage))
      case Some(ended) =>
        match p.toInt(f.manager)
        case None => Failure(Raised(ValueError))
        case Some(manager) =>
          match OptionalAmount(p, f.budget)
          case None => Failure(Raised(CommitError))
          case Some(budget) => Success(Project(no, budget, started, ended, f.department, manager))
  }

  /** create_project up to the commit. */
  function NewProject(rows: seq<Project>, p: Parsers, noText: string, f: ProjectForm): (r: Result<Project>)
    ensures noText == "" || f.department == "" || f.manager == "" ==> r == Failure(Rejected(RequiredMessage))
    ensures noText != "" && f.department != "" && f.manager != "" && p.toInt(noText).None?
            ==> r == Failure(Rejected(NotIntegerMessage))
    ensures (noText != "" && f.department != "" && f.manager != "" && p.toInt(noText).Some?
             && HasKey(rows, ProjectKey, p.toInt(noText).value)) ==> r == Failure(Rejected(DuplicateMessage))
    ensures r.Success? ==> noText != "" && f.department != "" && f.manager != "" && p.toInt(noText).Some?
                           && !HasKey(rows, ProjectKey, p.toInt(noText).value)
    ensures (noText != "" && f.department != "" && f.manager != "" && p.toInt(noText).Some?
             && !HasKey(rows, ProjectKey, p.toInt(noText).value)) ==> r == ProjectFromForm(p, p.toInt(noText).value, f)
  {
    if noText == "" || f.department == "" || f.manager == "" then Failure(Rejected(RequiredMessage))
    else match p.toInt(noText)
      case None => Failure(Rejected(NotIntegerMessage))
      case Some(no) =>
        if Lookup(rows, ProjectKey, no).Some? then Failure(Rejected(DuplicateMessage))
        else ProjectFromForm(p, no, f)
  }

  /** edit_project up to the commit: the number is kept; budget, dates, department and manager overwritten. */
  function EditedProject(current: Project, p: Parsers, f: ProjectForm): (r: Result<Project>)
    ensures f.department == "" || f.manager == "" ==> r == Failure(Rejected(EditRequiredMessage))
    ensures f.department != "" && f.manager != "" ==> r == ProjectFromForm(p, current.no, f)
  {
    if f.department == "" || f.manager == "" then Failure(Rejected(EditRequiredMessage))
    else ProjectFromForm(p, current.no, f)
  }

  /** The Project table. */
  class ProjectTable {
    var rows: seq<Project>

    ghost predicate Valid()
      reads this
    {
      UniqueKeys(rows, ProjectKey)
    }

    constructor ()
      ensures Valid() && rows == []
    {
      rows := [];
    }

    /** create_project (POST). */
    method Create(p: Parsers, noText: string, f: ProjectForm, commitOk: bool) returns (r: Result<Project>)
      requires Valid()
      modifies this
      ensures Valid()
      ensures r == Commit(NewProject(old(rows), p, noText, f), commitOk)
      ensures rows == if r.Success? then old(rows) + [r.value] else old(rows)
      ensures r.Success? ==> Lookup(rows, ProjectKey, r.value.no) == Some(r.value)
    {
      r := Commit(NewProject(rows, p, noText, f), commitOk);
      if r.Success? {
        InsertFresh(rows, ProjectKey, r.value);
        rows := rows + [r.value];
      }
    }

    /** edit_project (POST) for project `no`. */
    method Edit(no: int, p: Parsers, f: ProjectForm, commitOk: bool) returns (r: Result<Project>)
      requires Valid()
      modifies this
      ensures Valid()
      ensures match Lookup(old(rows), ProjectKey, no)
              case None => r == Failure(NotFound)
              case Some(x) => r == Commit(EditedProject(x, p, f), commitOk)
      ensures rows == if r.Success? then Replace(old(rows), ProjectKey, r.value) else old(rows)
      ensures r.Success? ==> r.value.no == no && Keys(rows, ProjectKey) == Keys(old(rows), ProjectKey)
    {
      match Lookup(rows, ProjectKey, no)
      case None =>
        r := Failure(NotFound);
      case Some(x) =>
        r := Commit(EditedProject(x, p, f), commitOk);
        if r.Success? {
          rows := Replace(rows, ProjectKey, r.value);
        }
    }

    /** delete_project: one delete, no cascade; a refused commit is rolled back. */
    method Delete(no: int, commitOk: bool) returns (r: Result<bool>)
      requires Valid()
      modifies this
      ensures Valid()
      ensures !HasKey(old(rows), ProjectKey, no) ==> r == Failure(NotFound) && rows == old(rows)
      ensures HasKey(old(rows), ProjectKey, no) ==> r == Success(commitOk)
      ensures rows == if r == Success(true) then Remove(old(rows), ProjectKey, no) else old(rows)
    {
      if Lookup(rows, ProjectKey, no).None? {
        r := Failure(NotFound);
      } else {
        r := Success(commitOk);
        if commitOk {
          RemoveKeepsUnique(rows, ProjectKey, no);
          rows := Remove(rows, ProjectKey, no);
        }
      }
    }
  }
}
