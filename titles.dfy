/** routes/titles.py: create, edit and delete on the Employee_Title table. */
module TitleRoutes {
  import opened Wrappers
  import opened Forms
  import opened Tables
  import opened Schema

  const RequiredMessage := "Title name is required."
  const DuplicateMessage := "A title with that name already exists."

  /** The salary column from its form text: empty is null; the store reads the rest. */
  function SalaryFromForm(p: Parsers, salaryText: string): (r: Result<Option<int>>)
    ensures r.Success? <==> OptionalAmount(p, salaryText).Some?
    ensures r.Failure? ==> r.error == Raised(CommitError)
    ensures r.Success? ==> (r.value.None? <==> salaryText == "")
    ensures r.Success? && salaryText != "" ==> r.value == p.toAmount(salaryText)
  {
    match OptionalAmount(p, salaryText)
    case None => Failure(Raised(CommitError))
    case Some(salary) => Success(salary)
  }

  /** create_title up to the commit (name and salary text stripped). */
  function NewTitle(rows: seq<EmployeeTitle>, p: Parsers, name: string, salaryText: string): (r: Result<EmployeeTitle>)
    ensures name == "" ==> r == Failure(Rejected(RequiredMessage))
    ensures name != "" && HasKey(rows, TitleKey, name) ==> r == Failure(Rejected(DuplicateMessage))
    ensures r.Success? <==> name != "" && !HasKey(rows, TitleKey, name) && SalaryFromForm(p, salaryText).Success?
    ensures r.Success? ==> r.value == EmployeeTitle(name, SalaryFromForm(p, salaryText).value)
    ensures name != "" && !HasKey(rows, TitleKey, name) && r.Failure? ==> r.error == Raised(CommitError)
  {
    if name == "" then Failure(Rejected(RequiredMessage))
    else if Lookup(rows, TitleKey, name).Some? then Failure(Rejected(DuplicateMessage))
    else match SalaryFromForm(p, salaryText)
      case Failure(e) => Failure(e)
      case Success(salary) => Success(EmployeeTitle(name, salary))
  }

  /** The Employee_Title table. */
  class TitleTable {
    var rows: seq<EmployeeTitle>

    ghost predicate Valid()
      reads this
    {
      UniqueKeys(rows, TitleKey)
    }

    constructor ()
      ensures Valid() && rows == []
    {
      rows := [];
    }

    /** create_title (POST). */
    method Create(p: Parsers, name: string, salaryText: string, commitOk: bool) returns (r: Result<EmployeeTitle>)
      requires Valid()
      modifies this
      ensures Valid()
      ensures r == Commit(NewTitle(old(rows), p, name, salaryText), commitOk)
      ensures rows == if r.Success? then old(rows) + [r.value] else old(rows)
    {
      r := Commit(NewTitle(rows, p, name, salaryText), commitOk);
      if r.Success? {
        InsertFresh(rows, TitleKey, r.value);
        rows := rows + [r.value];
      }
    }

    /** edit_title (POST): only the salary changes. */
    method Edit(name: string, p: Parsers, salaryText: string, commitOk: bool) returns (r: Result<EmployeeTitle>)
      requires Valid()
      modifies this
      ensures Valid()
      ensures match Lookup(old(rows), TitleKey, name)
              case None => r == Failure(NotFound)
              case Some(t) =>
                match SalaryFromForm(p, salaryText)
                case Failure(e) => r == Failure(e)
                case Success(salary) => r == Commit(Success(t.(salary := salary)), commitOk)
      ensures rows == if r.Success? then Replace(old(rows), TitleKey, r.value) else old(rows)
      ensures r.Success? ==> r.value.title == name
    {
      match Lookup(rows, TitleKey, name)
      case None =>
        r := Failure(NotFound);
      case Some(t) =>
        match SalaryFromForm(p, salaryText)
        case Failure(e) =>
          r := Failure(e);
        case Success(salary) =>
          r := Commit(Success(t.(salary := salary)), commitOk);
          if r.Success? {
            rows := Replace(rows, TitleKey, r.value);
          }
    }

    /** delete_title: one delete; a refused commit (employees holding the title) is rolled back. */
    method Delete(name: string, commitOk: bool) returns (r: Result<bool>)
      requires Valid()
      modifies this
      ensures Valid()
      ensures !HasKey(old(rows), TitleKey, name) ==> r == Failure(NotFound) && rows == old(rows)
      ensures HasKey(old(rows), TitleKey, name) ==> r == Success(commitOk)
      ensures rows == if r == Success(true) then Remove(old(rows), TitleKey, name) else old(rows)
    {
      if Lookup(rows, TitleKey, name).None? {
        r := Failure(NotFound);
      } else {
        r := Success(commitOk);
        if commitOk {
          RemoveKeepsUnique(rows, TitleKey, name);
          rows := Remove(rows, TitleKey, name);
        }
      }
    }
  }
}
