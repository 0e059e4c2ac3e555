/** routes/employees.py: create, edit and delete on the Employee table. */
module EmployeeRoutes {
  import opened Wrappers
  import opened Dates
  import opened Forms
  import opened Tables
  import opened Schema

  const RequiredMessage := "Employee number and name are required."
  const NotIntegerMessage := "Employee number must be an integer."
  const DuplicateMessage := "An employee with that number already exists."
  const BadDateMessage := "Invalid starting date format."
  const NameRequiredMessage := "Employee name is required."

  /**
   * The employee form fields besides the number, as the handler reads them: name, phone
   * and starting date stripped; title, department and division as sent ("" when absent).
   */
  datatype EmployeeForm = EmployeeForm(
    name: string,
    phone: string,
    startingDate: string,
    title: string,
    department: string,
    division: string)

  /** The row the form describes, or the message the form is shown again with. */
  function EmployeeFromForm(p: Parsers, no: int, f: EmployeeForm): (r: Result<Employee>)
    ensures r.Success? <==> OptionalDate(p, f.startingDate).Some?
    ensures r.Failure? ==> r.error == Rejected(BadDateMessage)
    ensures r.Success? ==> r.value.no == no && r.value.name == f.name
    ensures r.Success? ==> r.value.startingDate == OptionalDate(p, f.startingDate).value
    ensures r.Success? ==> (r.value.startingDate.None? <==> f.startingDate == "")
    ensures r.Success? ==> r.value.phone == OrNone(f.phone) && r.value.title == OrNone(f.title)
    ensures r.Success? ==> r.value.department == OrNone(f.department) && r.value.division == OrNone(f.division)
  {
    match OptionalDate(p, f.startingDate)
    case None => Failure(Rejected(BadDateMessage))
    case Some(date) =>
      Success(Employee(no, f.name, OrNone(f.phone), date, OrNone(f.title), OrNone(f.department), OrNone(f.division)))
  }

  /** create_employee up to the commit: the checks in the order the handler makes them. */
  function NewEmployee(rows: seq<Employee>, p: Parsers, noText: string, f: EmployeeForm): (r: Result<Employee>)
    ensures noText == "" || f.name == "" ==> r == Failure(Rejected(RequiredMessage))
    ensures noText != "" && f.name != "" && p.toInt(noText).None? ==> r == Failure(Rejected(NotIntegerMessage))
    ensures noText != "" && f.name != "" && p.toInt(noText).Some? && HasKey(rows, EmployeeKey, p.toInt(noText).value)
            ==> r == Failure(Rejected(DuplicateMessage))
    ensures r.Success? <==> noText != "" && f.name != "" && p.toInt(noText).Some?
                            && !HasKey(rows, EmployeeKey, p.toInt(noText).value)
                            && OptionalDate(p, f.startingDate).Some?
    ensures r.Success? ==> r == EmployeeFromForm(p, p.toInt(noText).value, f)
    ensures r.Failure? ==> r.error.Rejected?
  {
    if noText == "" || f.name == "" then Failure(Rejected(RequiredMessage))
    else match p.toInt(noText)
      case None => Failure(Rejected(NotIntegerMessage))
      case Some(no) =>
        if Lookup(rows, EmployeeKey, no).Some? then Failure(Rejected(DuplicateMessage))
        else EmployeeFromForm(p, no, f)
  }

  /** edit_employee up to the commit: the number is kept, every other column overwritten. */
  function EditedEmployee(current: Employee, p: Parsers, f: EmployeeForm): (r: Result<Employee>)
    ensures f.name == "" ==> r == Failure(Rejected(NameRequiredMessage))
    ensures r.Success? <==> f.name != "" && OptionalDate(p, f.startingDate).Some?
    ensures r.Success? ==> r == EmployeeFromForm(p, current.no, f)
    ensures r.Failure? ==> r.error.Rejected?
  {
    if f.name == "" then Failure(Rejected(NameRequiredMessage))
    else EmployeeFromForm(p, current.no, f)
  }

  /** The Employee table. */
  class EmployeeTable {
    var rows: seq<Employee>

    ghost predicate Valid()
      reads this
    {
      UniqueKeys(rows, EmployeeKey)
    }

    constructor ()
      ensures Valid() && rows == []
    {
      rows := [];
    }

    /** create_employee (POST). */
    method Create(p: Parsers, noText: string, f: EmployeeForm, commitOk: bool) returns (r: Result<Employee>)
      requires Valid()
      modifies this
      ensures Valid()
      ensures r == Commit(NewEmployee(old(rows), p, noText, f), commitOk)
      ensures rows == if r.Success? then old(rows) + [r.value] else old(rows)
      ensures r.Success? ==> Lookup(rows, EmployeeKey, r.value.no) == Some(r.value)
    {
      r := Commit(NewEmployee(rows, p, noText, f), commitOk);
      if r.Success? {
        InsertFresh(rows, EmployeeKey, r.value);
        rows := rows + [r.value];
      }
    }

    /** edit_employee (POST) for the employee with number `no`. */
    method Edit(no: int, p: Parsers, f: EmployeeForm, commitOk: bool) returns (r: Result<Employee>)
      requires Valid()
      modifies this
      ensures Valid()
      ensures match Lookup(old(rows), EmployeeKey, no)
              case None => r == Failure(NotFound)
              case Some(e) => r == Commit(EditedEmployee(e, p, f), commitOk)
      ensures rows == if r.Success? then Replace(old(rows), EmployeeKey, r.value) else old(rows)
      ensures r.Success? ==> r.value.no == no && Keys(rows, EmployeeKey) == Keys(old(rows), EmployeeKey)
    {
      match Lookup(rows, EmployeeKey, no)
      case None =>
        r := Failure(NotFound);
      case Some(e) =>
        r := Commit(EditedEmployee(e, p, f), commitOk);
        if r.Success? {
          rows := Replace(rows, EmployeeKey, r.value);
        }
    }

    /**
     * delete_employee: one delete, no role check and no cascade. Success(true) when the
     * commit went through; Success(false) when it was refused and rolled back.
     */
    method Delete(no: int, commitOk: bool) returns (r: Result<bool>)
      requires Valid()
      modifies this
      ensures Valid()
      ensures !HasKey(old(rows), EmployeeKey, no) ==> r == Failure(NotFound) && rows == old(rows)
      ensures HasKey(old(rows), EmployeeKey, no) ==> r == Success(commitOk)
      ensures rows == if r == Success(true) then Remove(old(rows), EmployeeKey, no) else old(rows)
    {
      if Lookup(rows, EmployeeKey, no).None? {
        r := Failure(NotFound);
      } else {
        r := Success(commitOk);
        if commitOk {
          RemoveKeepsUnique(rows, EmployeeKey, no);
          rows := Remove(rows, EmployeeKey, no);
        }
      }
    }
  }
}
