/** routes/workson.py: create, edit and delete on the Works_On table, keyed by (employee, project). */
module WorksOnRoutes {
  import opened Wrappers
  import opened Forms
  import opened Tables
  import opened Schema

  const RequiredMessage := "Employee and project are required."
  const DuplicateMessage := "This employee is already assigned to that project."

  /** Time_Spent and Role from their stripped form text: empty becomes null. */
  function AssignmentFromForm(p: Parsers, employee: int, project: int, timeSpent: string, role: string): (r: Result<WorksOn>)
    ensures r.Success? <==> OptionalAmount(p, timeSpent).Some?
    ensures r.Failure? ==> r.error == Raised(CommitError)
    ensures r.Success? ==> WorksOnKey(r.value) == (employee, project)
    ensures r.Success? ==> (r.value.timeSpent.None? <==> timeSpent == "") && r.value.role == OrNone(role)
    ensures r.Success? && timeSpent != "" ==> r.value.timeSpent == p.toAmount(timeSpent)
  {
    match OptionalAmount(p, timeSpent)
    case None => Failure(Raised(CommitError))
    case Some(spent) => Success(WorksOn(employee, project, spent, OrNone(role)))
  }

  /** create_workson up to the commit. */
  function NewAssignment(rows: seq<WorksOn>, p: Parsers, employeeText: string, projectText: string,
                         timeSpent: string, role: string): (r: Result<WorksOn>)
    ensures employeeText == "" || projectText == "" ==> r == Failure(Rejected(RequiredMessage))
    ensures employeeText != "" && projectText != "" && (p.toInt(employeeText).None? || p.toInt(projectText).None?)
            ==> r == Failure(Raised(ValueError))
    ensures (employeeText != "" && projectText != "" && p.toInt(employeeText).Some? && p.toInt(projectText).Some?
             && HasKey(rows, WorksOnKey, (p.toInt(employeeText).value, p.toInt(projectText).value)))
            ==> r == Failure(Rejected(DuplicateMessage))
    ensures r.Success? ==> !HasKey(rows, WorksOnKey, WorksOnKey(r.value))
    ensures (employeeText != "" && projectText != "" && p.toInt(employeeText).Some? && p.toInt(projectText).Some?
             && !HasKey(rows, WorksOnKey, (p.toInt(employeeText).value, p.toInt(projectText).value)))
            ==> r == AssignmentFromForm(p, p.toInt(employeeText).value, p.toInt(projectText).value, timeSpent, role)
  {
    if employeeText == "" || projectText == "" then Failure(Rejected(RequiredMessage))
    else match (p.toInt(employeeText), p.toInt(projectText))
      case (Some(e), Some(j)) =>
        if Lookup(rows, WorksOnKey, (e, j)).Some? then Failure(Rejected(DuplicateMessage))
        else AssignmentFromForm(p, e, j, timeSpent, role)
      case _ => Failure(Raised(ValueError))
  }

  /** The Works_On table. */
  class WorksOnTable {
    var rows: seq<WorksOn>

    ghost predicate Valid()
      reads this
    {
      UniqueKeys(rows, WorksOnKey)
    }

    constructor ()
      ensures Valid() && rows == []
    {
      rows := [];
    }

    /** create_workson (POST). */
    method Create(p: Parsers, employeeText: string, projectText: string, timeSpent: string, role: string,
                  commitOk: bool) returns (r: Result<WorksOn>)
      requires Valid()
      modifies this
      ensures Valid()
      ensures r == Commit(NewAssignment(old(rows), p, employeeText, projectText, timeSpent, role), commitOk)
      ensures rows == if r.Success? then old(rows) + [r.value] else old(rows)
    {
      r := Commit(NewAssignment(rows, p, employeeText, projectText, timeSpent, role), commitOk);
      if r.Success? {
        InsertFresh(rows, WorksOnKey, r.value);
        rows := rows + [r.value];
      }
    }

    /** edit_workson (POST): only Time_Spent and Role change; the pair stays. */
    method Edit(employee: int, project: int, p: Parsers, timeSpent: string, role: string, commitOk: bool)
      returns (r: Result<WorksOn>)
      requires Valid()
      modifies this
      ensures Valid()
      ensures !HasKey(old(rows), WorksOnKey, (employee, project)) ==> r == Failure(NotFound)
      ensures HasKey(old(rows), WorksOnKey, (employee, project))
              ==> r == Commit(AssignmentFromForm(p, employee, project, timeSpent, role), commitOk)
      ensures rows == if r.Success? then Replace(old(rows), WorksOnKey, r.value) else old(rows)
    {
      if Lookup(rows, WorksOnKey, (employee, project)).None? {
        r := Failure(NotFound);
      } else {
        r := Commit(AssignmentFromForm(p, employee, project, timeSpent, role), commitOk);
        if r.Success? {
          rows := Replace(rows, WorksOnKey, r.value);
        }
      }
    }

    /** delete_workson: one delete; a refused commit is rolled back. */
    method Delete(employee: int, project: int, commitOk: bool) returns (r: Result<bool>)
      requires Valid()
      modifies this
      ensures Valid()
      ensures !HasKey(old(rows), WorksOnKey, (employee, project)) ==> r == Failure(NotFound) && rows == old(rows)
      ensures HasKey(old(rows), WorksOnKey, (employee, project)) ==> r == Success(commitOk)
      ensures rows == if r == Success(true) then Remove(old(rows), WorksOnKey, (employee, project)) else old(rows)
    {
      if Lookup(rows, WorksOnKey, (employee, project)).None? {
        r := Failure(NotFound);
      } else {
        r := Success(commitOk);
        if commitOk {
          RemoveKeepsUnique(rows, WorksOnKey, (employee, project));
          rows := Remove(rows, WorksOnKey, (employee, project));
        }
      }
    }
  }
}
