/** routes/hr/project_employees.py: hourly contracts, at most one per employee. */
module ProjectEmployeeRoutes {
  import opened Wrappers
  import opened Dates
  import opened Forms
  import opened Tables
  import opened Schema

  const RequiredMessage := "Employee, project, hourly rate, and start date are required."
  const DuplicateMessage := "This employee already has an hourly project contract."
  const BadStartMessage := "Start date must be YYYY-MM-DD."
  const BadEndMessage := "End date must be YYYY-MM-DD."
  const EditRequiredMessage := "Project, hourly rate, and start date are required."

  /** The contract form besides the employee: project as sent, rate and dates stripped. */
  datatype ContractForm = ContractForm(project: string, hourlyRate: string, start: string, end: string)

  /**
   * The contract the form describes, from the date checks on: a malformed start, or a
   * malformed non-empty end, is shown again; `int(project)` may raise; the store reads the
   * rate when the row is flushed. Start and end are not compared.
   */
  function ContractFromForm(p: Parsers, employee: int, f: ContractForm): (r: Result<ProjectEmployee>)
    ensures p.toDate(f.start).None? ==> r == Failure(Rejected(BadStartMessage))
    ensures p.toDate(f.start).Some? && OptionalDate(p, f.end).None? ==> r == Failure(Rejected(BadEndMessage))
    ensures p.toDate(f.start).Some? && OptionalDate(p, f.end).Some? && p.toInt(f.project).None?
            ==> r == Failure(Raised(ValueError))
    ensures (p.toDate(f.start).Some? && OptionalDate(p, f.end).Some? && p.toInt(f.project).Some?
             && p.toAmount(f.hourlyRate).None?) ==> r == Failure(Raised(CommitError))
    ensures r.Success? <==> p.toDate(f.start).Some? && OptionalDate(p, f.end).Some?
                            && p.toInt(f.project).Some? && p.toAmount(f.hourlyRate).Some?
    ensures r.Success? ==> r.value.employee == employee && r.value.project == p.toInt(f.project).value
    ensures r.Success? ==> r.value.hourlyRate == p.toAmount(f.hourlyRate).value
    ensures r.Success? ==> r.value.start == p.toDate(f.start).value && r.value.end == OptionalDate(p, f.end).value
    ensures r.Success? ==> (r.value.end.None? <==> f.end == "")
  {
    match p.toDate(f.start)
    case None => Failure(Rejected(BadStartMessage))
    case Some(start) =>
      match OptionalDate(p, f.end)
      case None => Failure(Rejected(BadEndMessage))
      case Some(end) =>
        match p.toInt(f.project)
        case None => Failure(Raised(ValueError))
        case Some(project) =>
          match p.toAmount(f.hourlyRate)
          case None => Failure(Raised(CommitError))
          case Some(rate) => Success(ProjectEmployee(employee, project, rate, start, end))
  }

  /** create_project_employee up to the commit. */
  function NewContract(rows: seq<ProjectEmployee>, p: Parsers, employeeText: string, f: ContractForm)
    : (r: Result<ProjectEmployee>)
    ensures employeeText == "" || f.project == "" || f.hourlyRate == "" || f.start == ""
            ==> r == Failure(Rejected(RequiredMessage))
    ensures (employeeText != "" && f.project != "" && f.hourlyRate != "" && f.start != ""
             && p.toInt(employeeText).None?) ==> r == Failure(Raised(ValueError))
    ensures (employeeText != "" && f.project != "" && f.hourlyRate != "" && f.start != ""
             && p.toInt(employeeText).Some? && HasKey(rows, ContractKey, p.toInt(employeeText).value))
            ==> r == Failure(Rejected(DuplicateMessage))
    ensures (employeeText != "" && f.project != "" && f.hourlyRate != "" && f.start != ""
             && p.toInt(employeeText).Some? && !HasKey(rows, ContractKey, p.toInt(employeeText).value))
            ==> r == ContractFromForm(p, p.toInt(employeeText).value, f)
    ensures r.Success? ==> !HasKey(rows, ContractKey, r.value.employee)
  {
    if employeeText == "" || f.project == "" || f.hourlyRate == "" || f.start == "" then
      Failure(Rejected(RequiredMessage))
    else match p.toInt(employeeText)
      case None => Failure(Raised(ValueError))
      case Some(employee) =>
        if Lookup(rows, ContractKey, employee).Some? then Failure(Rejected(DuplicateMessage))
        else ContractFromForm(p, employee, f)
  }

  /** edit_project_employee up to the commit: the employee is kept; project, rate and dates overwritten. */
  function EditedContract(current: ProjectEmployee, p: Parsers, f: ContractForm): (r: Result<ProjectEmployee>)
    ensures f.project == "" || f.hourlyRate == "" || f.start == "" ==> r == Failure(Rejected(EditRequiredMessage))
    ensures f.project != "" && f.hourlyRate != "" && f.start != "" ==> r == ContractFromForm(p, current.employee, f)
    ensures r.Success? ==> ContractKey(r.value) == ContractKey(current)
  {
    if f.project == "" || f.hourlyRate == "" || f.start == "" then Failure(Rejected(EditRequiredMessage))
    else ContractFromForm(p, current.employee, f)
  }

  /** The ProjectEmployee table. */
  class ContractTable {
    var rows: seq<ProjectEmployee>

    ghost predicate Valid()
      reads this
    {
      UniqueKeys(rows, ContractKey)
    }

    constructor ()
      ensures Valid() && rows == []
    {
      rows := [];
    }

    /** create_project_employee (POST). */
    method Create(p: Parsers, employeeText: string, f: ContractForm, commitOk: bool) returns (r: Result<ProjectEmployee>)
      requires Valid()
      modifies this
      ensures Valid()
      ensures r == Commit(NewContract(old(rows), p, employeeText, f), commitOk)
      ensures rows == if r.Success? then old(rows) + [r.value] else old(rows)
      ensures r.Success? ==> Lookup(rows, ContractKey, r.value.employee) == Some(r.value)
    {
      r := Commit(NewContract(rows, p, employeeText, f), commitOk);
      if r.Success? {
        InsertFresh(rows, ContractKey, r.value);
        rows := rows + [r.value];
      }
    }

    /** edit_project_employee (POST) for the contract of `employee`. */
    method Edit(employee: int, p: Parsers, f: ContractForm, commitOk: bool) returns (r: Result<ProjectEmployee>)
      requires Valid()
      modifies this
      ensures Valid()
      ensures match Lookup(old(rows), ContractKey, employee)
              case None => r == Failure(NotFound)
              case Some(c) => r == Commit(EditedContract(c, p, f), commitOk)
      ensures rows == if r.Success? then Replace(old(rows), ContractKey, r.value) else old(rows)
      ensures r.Success? ==> r.value.employee == employee && Keys(rows, ContractKey) == Keys(old(rows), ContractKey)
    {
      match Lookup(rows, ContractKey, employee)
      case None =>
        r := Failure(NotFound);
      case Some(c) =>
        r := Commit(EditedContract(c, p, f), commitOk);
        if r.Success? {
          rows := Replace(rows, ContractKey, r.value);
        }
    }

    /** delete_project_employee: one delete; a refused commit is rolled back. */
    method Delete(employee: int, commitOk: bool) returns (r: Result<bool>)
      requires Valid()
      modifies this
      ensures Valid()
      ensures !HasKey(old(rows), ContractKey, employee) ==> r == Failure(NotFound) && rows == old(rows)
      ensures HasKey(old(rows), ContractKey, employee) ==> r == Success(commitOk)
      ensures rows == if r == Success(true) then Remove(old(rows), ContractKey, employee) else old(rows)
    {
      if Lookup(rows, ContractKey, employee).None? {
        r := Failure(NotFound);
      } else {
        r := Success(commitOk);
        if commitOk {
          RemoveKeepsUnique(rows, ContractKey, employee);
          rows := Remove(rows, ContractKey, employee);
        }
      }
    }
  }
}
