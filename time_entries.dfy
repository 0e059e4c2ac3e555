/** routes/hr/time_entries.py: time entries, keyed by an id the store assigns. */
module TimeEntryRoutes {
  import opened Wrappers
  import opened Dates
  import opened Forms
  import opened Tables
  import opened Schema

  const RequiredMessage := "Employee, project, work date, and hours are required."
  const EditRequiredMessage := "All fields are required."
  const BadDateMessage := "Work date must be YYYY-MM-DD."

  /** The entry form: employee and project as sent, work date and hours stripped. */
  datatype EntryForm = EntryForm(employee: string, project: string, workDate: string, hours: string)

  predicate Complete(f: EntryForm) {
    f.employee != "" && f.project != "" && f.workDate != "" && f.hours != ""
  }

  /**
   * The entry the form describes under `id`, past the required-field check: a malformed work
   * date is shown again, `int()` of employee or project may raise, and the store reads the
   * hours when the row is flushed. No check that another entry has the same employee, project and day.
   */
  function EntryFromForm(p: Parsers, id: int, f: EntryForm): (r: Result<TimeEntry>)
    ensures p.toDate(f.workDate).None? ==> r == Failure(Rejected(BadDateMessage))
    ensures p.toDate(f.workDate).Some? && (p.toInt(f.employee).None? || p.toInt(f.project).None?)
            ==> r == Failure(Raised(ValueError))
    ensures (p.toDate(f.workDate).Some? && p.toInt(f.employee).Some? && p.toInt(f.project).Some?
             && p.toAmount(f.hours).None?) ==> r == Failure(Raised(CommitError))
    ensures r.Success? <==> p.toDate(f.workDate).Some? && p.toInt(f.employee).Some?
                            && p.toInt(f.project).Some? && p.toAmount(f.hours).Some?
    ensures r.Success? ==> r.value == TimeEntry(id, p.toInt(f.employee).value, p.toInt(f.project).value,
                                                p.toDate(f.workDate).value, p.toAmount(f.hours).value)
  {
    match p.toDate(f.workDate)
    case None => Failure(Rejected(BadDateMessage))
    case Some(day) =>
      match (p.toInt(f.employee), p.toInt(f.project))
      case (Some(employee), Some(project)) =>
        (match p.toAmount(f.hours)
         case None => Failure(Raised(CommitError))
         case Some(hours) => Success(TimeEntry(id, employee, project, day, hours)))
      case _ => Failure(Raised(ValueError))
  }

  /** create_time_entry up to the commit; the new row takes the next free id. */
  function NewEntry(rows: seq<TimeEntry>, p: Parsers, f: EntryForm): (r: Result<TimeEntry>)
    ensures !Complete(f) ==> r == Failure(Rejected(RequiredMessage))
    ensures Complete(f) ==> r == EntryFromForm(p, NextId(rows, EntryKey), f)
    ensures r.Success? ==> !HasKey(rows, EntryKey, r.value.id)
  {
    if !Complete(f) then Failure(Rejected(RequiredMessage))
    else EntryFromForm(p, NextId(rows, EntryKey), f)
  }

  /** edit_time_entry up to the commit: the id is kept, the four columns overwritten. */
  function EditedEntry(current: TimeEntry, p: Parsers, f: EntryForm): (r: Result<TimeEntry>)
    ensures !Complete(f) ==> r == Failure(Rejected(EditRequiredMessage))
    ensures Complete(f) ==> r == EntryFromForm(p, current.id, f)
    ensures r.Success? ==> EntryKey(r.value) == EntryKey(current)
  {
    if !Complete(f) then Failure(Rejected(EditRequiredMessage))
    else EntryFromForm(p, current.id, f)
  }

  /** The TimeEntry table. */
  class EntryTable {
    var rows: seq<TimeEntry>

    ghost predicate Valid()
      reads this
    {
      UniqueKeys(rows, EntryKey)
    }

    constructor ()
      ensures Valid() && rows == []
    {
      rows := [];
    }

    /** create_time_entry (POST). */
    method Create(p: Parsers, f: EntryForm, commitOk: bool) returns (r: Result<TimeEntry>)
      requires Valid()
      modifies this
      ensures Valid()
      ensures r == Commit(NewEntry(old(rows), p, f), commitOk)
      ensures rows == if r.Success? then old(rows) + [r.value] else old(rows)
      ensures r.Success? ==> Lookup(rows, EntryKey, r.value.id) == Some(r.value)
    {
      r := Commit(NewEntry(rows, p, f), commitOk);
      if r.Success? {
        InsertFresh(rows, EntryKey, r.value);
        rows := rows + [r.value];
      }
    }

    /** edit_time_entry (POST) for the entry `id`. */
    method Edit(id: int, p: Parsers, f: EntryForm, commitOk: bool) returns (r: Result<TimeEntry>)
      requires Valid()
      modifies this
      ensures Valid()
      ensures match Lookup(old(rows), EntryKey, id)
              case None => r == Failure(NotFound)
              case Some(t) => r == Commit(EditedEntry(t, p, f), commitOk)
      ensures rows == if r.Success? then Replace(old(rows), EntryKey, r.value) else old(rows)
      ensures r.Success? ==> r.value.id == id && Keys(rows, EntryKey) == Keys(old(rows), EntryKey)
    {
      match Lookup(rows, EntryKey, id)
      case None =>
        r := Failure(NotFound);
      case Some(t) =>
        r := Commit(EditedEntry(t, p, f), commitOk);
        if r.Success? {
          rows := Replace(rows, EntryKey, r.value);
        }
    }

    /** delete_time_entry: one delete; a refused commit is rolled back. */
    method Delete(id: int, commitOk: bool) returns (r: Result<bool>)
      requires Valid()
      modifies this
      ensures Valid()
      ensures !HasKey(old(rows), EntryKey, id) ==> r == Failure(NotFound) && rows == old(rows)
      ensures HasKey(old(rows), EntryKey, id) ==> r == Success(commitOk)
      ensures rows == if r == Success(true) then Remove(old(rows), EntryKey, id) else old(rows)
    {
      if Lookup(rows, EntryKey, id).None? {
        r := Failure(NotFound);
      } else {
        r := Success(commitOk);
        if commitOk {
          RemoveKeepsUnique(rows, EntryKey, id);
          rows := Remove(rows, EntryKey, id);
        }
      }
    }
  }
}
