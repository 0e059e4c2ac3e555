# Company portal: payroll, project statistics and the tables behind them

This project models the core of a small company portal written with Flask and SQLAlchemy. The core covers:

- the monthly payroll run and the payroll history page (`routes/hr/payroll.py`);
- the project statistics page (`routes/project_management/project_stats.py`);
- the project milestone pages (`routes/project_management/milestones.py`);
- the create, edit and delete handlers for employees, projects, titles, Works_On assignments, hourly project contracts and time entries;
- the tables those handlers write, with their keys and references (`models.py`).

## How the model is built

Each table is a `datatype` row in module `Schema`. Money and hours are integers in hundredths. The references between tables are predicates over a `Store` of all tables.

Each route file becomes one module:

- Pure functions (`NewEmployee`, `EditedContract`, …) decide the outcome of a form post. They check the fields in the same order as the handler and return one of four things:
  - the row to write;
  - the message the form is shown again with (`Rejected`);
  - `NotFound`, for `get_or_404`;
  - the exception that escapes (`Raised`).
- A class holds the table's rows as a `seq`. Its `Create`, `Edit` and `Delete` methods apply that outcome and the store's verdict on the commit. In every failure case the rows are unchanged.

The conversions the handlers leave to Python and the store are parameters (`Forms.Parsers`): `int()`, `strptime(..., "%Y-%m-%d")`, and reading a decimal string into a Numeric column. The same goes for the store's verdict on a commit (`commitOk`).

**Payroll.** `Money.Quantize` is Python's `Decimal.quantize` in its default context, which rounds half to even. `Payroll.Passes` is the specification of the two loops of `run_payroll`:

- Salaried employees are visited in join order. An employee who also has an hourly contract is skipped, and so is an employee who already has a row for the month.
- Every contracted employee is then paid for their hours in the month.
- Because the session autoflushes, the existence check sees the rows the same run has already added.

`Payroll.StagePasses` is the imperative loop, proved equal to `Passes`. `Payroll.PayrollLedger.Run` adds the commit.

The lemmas prove these properties:

- the run only appends;
- every row it adds is the prescribed salary or hourly row;
- each employee concerned ends up with a row for the period, and when the ledger held at most one row per employee and month before the run, it still does afterwards;
- a second run adds nothing;
- the run fails exactly when a salaried employee without a contract and without a row for the month holds a title with a null salary.

**Two behaviours of the code that may surprise a reader; the model follows the code:**

- The withholdings round half to even. For a gross of 937.50 the "other" tax of 28.125 is 28.12, not 28.13, and the net is 768.75. This is proved as `Money.HourlyExample` and `Payroll.HourlyRowExample`. The net is left over after the three rounded taxes, and `Money.ComponentwiseRoundingDiffers` shows that it can differ from 82% of gross rounded once.
- No delete handler checks for referencing rows or cascades. Whether a delete that leaves a dangling reference goes through is up to the store. The model takes that verdict as `commitOk`. `Schema.Delete*KeepsReferences` states exactly when a delete keeps every reference resolvable.

## Model

| member | source | states |
|---|---|---|
| Money.RoundHalfEven | routes/hr/payroll.py:61-64 | the result is the integer nearest to n/d, and a tie goes to the even neighbour |
| Money.HalfEvenRoundingIsUnique | routes/hr/payroll.py:61-64 | at most one integer is a half-even rounding of n/d, so `Quantize` is determined |
| Money.RoundingExactIsIdentity | routes/hr/payroll.py:60-64 | an amount that is already exact at the scale is left unchanged by quantize |
| Money.Quantize | routes/hr/payroll.py:61-64 | quantize of a value with k extra decimals is within half a unit of it, ties to even |
| Money.Tax | routes/hr/payroll.py:61-63 | a withholding is gross times the rate, rounded half-even to the cent |
| Money.HourlyGross | routes/hr/payroll.py:100-101 | hours times the hourly rate, rounded half-even to the cent |
| Money.Withhold | routes/hr/payroll.py:61-64 | the federal, state and other taxes and the net; net == gross - the three taxes |
| Money.WithholdBounds | routes/hr/payroll.py:61-64 | net is within 1.5 cents of 82% of gross; for a non-negative gross every tax and the net lie between 0 and gross |
| Money.SalaryExample | routes/hr/payroll.py:60-64 | a salary of 5000.00 withholds 500.00, 250.00 and 150.00 and pays 4100.00 |
| Money.HourlyExample | routes/hr/payroll.py:100-106 | 37.50 hours at 25.00 are 937.50 gross; the ties 46.875 and 28.125 round to 46.88 and 28.12, net 768.75 |
| Money.ComponentwiseRoundingDiffers | routes/hr/payroll.py:61-64 | on a gross of 0.05 every tax rounds to 0 and the net is 0.05, while 82% of it rounds to 0.04 |
| Tables.Lookup | routes/employees.py:57 | `query.get`: the row with the key if one exists, None iff no row has it |
| Tables.LookupFindsTheRow | routes/employees.py:57 | under unique keys, a row in the table is what a lookup of its key returns |
| Tables.InsertFresh | routes/employees.py:79-89 | appending a row with a fresh key keeps keys unique and makes it the row of its key |
| Tables.LookupAppend | routes/hr/payroll.py:53-58 | appending a row with another key does not change what a lookup finds |
| Tables.Remove | routes/employees.py:158-167 | `session.delete`: no row with the key remains, no row is added, and an absent key changes nothing |
| Tables.RemoveKeepsOthers | routes/employees.py:158-167 | removing one key keeps every row with another key |
| Tables.RemoveHasKey | routes/employees.py:158-167 | after removing k, a key is present iff it was present and differs from k |
| Tables.RemoveKeepsUnique | routes/employees.py:158-167 | removing rows keeps keys unique |
| Tables.RemoveExactlyOne | routes/employees.py:158-167 | under unique keys, removing a present key shortens the table by exactly one |
| Tables.Replace | routes/employees.py:139-146 | overwriting a row's columns keeps its position, its key and every other row |
| Tables.ReplaceLookup | routes/employees.py:139-146 | after replacing, the key looks up the new row and the keys are unchanged |
| Tables.NextId | routes/hr/time_entries.py:49-56 | a fresh id for a new row, assuming max+1: above every id in use, 1 for an empty table |
| Tables.HasKeyExtended | routes/hr/payroll.py:53-58 | a key found in a prefix of the session is found in the whole session |
| Tables.HasKeyAppend | routes/hr/payroll.py:53-58 | a key is in rows + [x] iff it is in rows or is x's key |
| Sorting.LexLeTotal | routes/hr/payroll.py:137 | the lexicographic order on integer sequences is total |
| Sorting.LexLeTransitive | routes/hr/payroll.py:137 | the lexicographic order on integer sequences is transitive |
| Sorting.SortBy | routes/project_management/milestones.py:15 | `order_by`: the result is a permutation of the rows, sorted by the given key |
| Sorting.LexLeHead | routes/hr/payroll.py:137 | lexicographically ordered sequences have ordered first elements, and equal first elements leave the rest ordered |
| Sorting.LexLeAfterCommonPrefix | routes/hr/payroll.py:137 | two sequences with a common prefix are ordered as their remainders are |
| Schema.DeleteEmployeeKeepsReferences | models.py:51-71 | deleting an employee keeps every employee reference resolvable iff nothing references the employee |
| Schema.DeleteProjectKeepsReferences | models.py:74-90 | deleting a project keeps every reference resolvable iff nothing references the project |
| Schema.DeleteTitleKeepsReferences | models.py:44-48 | deleting a title keeps references resolvable iff no employee holds it |
| Schema.DeleteKeepsKeysAndColumns | models.py:44-48 | deleting an employee, project or title keeps every primary key and Numeric width |
| EmployeeRoutes.EmployeeFromForm | routes/employees.py:66-89 | a bad starting date is shown again; otherwise the row carries the form, empty fields as null |
| EmployeeRoutes.NewEmployee | routes/employees.py:37-89 | required, integer and duplicate checks in order, with their messages; success iff all pass and the date parses |
| EmployeeRoutes.EditedEmployee | routes/employees.py:115-146 | the name is required; the number is kept and every other column is overwritten |
| EmployeeRoutes.EmployeeTable.Create | routes/employees.py:22-90 | the new row is appended iff the checks and the commit pass |
| EmployeeRoutes.EmployeeTable.Edit | routes/employees.py:100-147 | NotFound for a missing number; otherwise the row is replaced in place iff the checks and the commit pass |
| EmployeeRoutes.EmployeeTable.Delete | routes/employees.py:158-167 | NotFound, or the row removed iff the commit goes through (a refused commit is rolled back) |
| ProjectRoutes.ProjectFromForm | routes/projects.py:60-92 | bad start or end date shown again; `int(manager)` raises; an unreadable budget fails at flush |
| ProjectRoutes.NewProject | routes/projects.py:34-92 | required, integer and duplicate checks in order; success iff all checks pass |
| ProjectRoutes.EditedProject | routes/projects.py:111-151 | department and manager required; the number kept, the other columns overwritten |
| ProjectRoutes.ProjectTable.Create | routes/projects.py:22-93 | the new row is appended iff the checks and the commit pass |
| ProjectRoutes.ProjectTable.Edit | routes/projects.py:98-152 | NotFound, or the row replaced iff the checks and the commit pass |
| ProjectRoutes.ProjectTable.Delete | routes/projects.py:162-170 | NotFound, or the row removed iff the commit goes through |
| TitleRoutes.SalaryFromForm | routes/titles.py:26-38 | an empty salary is null; an unreadable one fails at flush |
| TitleRoutes.NewTitle | routes/titles.py:20-38 | title required, no duplicate title; the row carries the title and salary |
| TitleRoutes.TitleTable.Create | routes/titles.py:14-41 | the new row is appended iff the checks and the commit pass |
| TitleRoutes.TitleTable.Edit | routes/titles.py:46-54 | NotFound, or only the salary changes |
| TitleRoutes.TitleTable.Delete | routes/titles.py:59-69 | NotFound, or the row removed iff the commit goes through |
| WorksOnRoutes.AssignmentFromForm | routes/workson.py:48-53 | the assignment row, the role empty as null; an unreadable time spent fails at flush |
| WorksOnRoutes.NewAssignment | routes/workson.py:31-53 | both keys required; `int()` raises; a duplicate pair is shown again |
| WorksOnRoutes.WorksOnTable.Create | routes/workson.py:20-56 | the new row is appended iff the checks and the commit pass |
| WorksOnRoutes.WorksOnTable.Edit | routes/workson.py:65-77 | NotFound for a missing pair, or time and role replaced |
| WorksOnRoutes.WorksOnTable.Delete | routes/workson.py:82-90 | NotFound, or the pair removed iff the commit goes through |
| ProjectEmployeeRoutes.ContractFromForm | routes/hr/project_employees.py:48-78 | dates checked with their messages, then `int(project)`, then the rate at flush |
| ProjectEmployeeRoutes.NewContract | routes/hr/project_employees.py:32-78 | required fields, `int(employee)`, one contract per employee, in that order |
| ProjectEmployeeRoutes.EditedContract | routes/hr/project_employees.py:95-130 | project, rate and start required; the employee is kept |
| ProjectEmployeeRoutes.ContractTable.Create | routes/hr/project_employees.py:20-79 | the new contract is appended iff the checks and the commit pass |
| ProjectEmployeeRoutes.ContractTable.Edit | routes/hr/project_employees.py:84-131 | NotFound, or the contract replaced iff the checks and the commit pass |
| ProjectEmployeeRoutes.ContractTable.Delete | routes/hr/project_employees.py:136-144 | NotFound, or the contract removed iff the commit goes through |
| TimeEntryRoutes.EntryFromForm | routes/hr/time_entries.py:39-56 | a bad work date is shown again; `int()` raises; the hours are read at flush |
| TimeEntryRoutes.NewEntry | routes/hr/time_entries.py:31-56 | every field required; the entry gets the next id and no duplicate check is made |
| TimeEntryRoutes.EditedEntry | routes/hr/time_entries.py:74-99 | every field required; the id is kept |
| TimeEntryRoutes.EntryTable.Create | routes/hr/time_entries.py:20-57 | the new entry is appended under a fresh id iff the checks and the commit pass |
| TimeEntryRoutes.EntryTable.Edit | routes/hr/time_entries.py:62-100 | NotFound, or the entry replaced iff the checks and the commit pass |
| TimeEntryRoutes.EntryTable.Delete | routes/hr/time_entries.py:105-113 | NotFound, or the entry removed iff the commit goes through |
| MilestoneRoutes.OfProject | routes/project_management/milestones.py:14 | exactly the project's milestones, each as often as in the table |
| MilestoneRoutes.DueOrderMeaning | routes/project_management/milestones.py:15 | the sort key puts undated milestones last and dated ones by date |
| MilestoneRoutes.ListMilestones | routes/project_management/milestones.py:9-18 | NotFound iff the project is missing; otherwise a permutation of its milestones, dated ascending, undated last |
| MilestoneRoutes.MilestoneFromForm | routes/project_management/milestones.py:40-55 | a malformed date raises; the row carries the form, status defaulting to "Not Started" |
| MilestoneRoutes.NewMilestone | routes/project_management/milestones.py:23-55 | NotFound for a missing project, the title required, a fresh id, the URL's project |
| MilestoneRoutes.EditedMilestone | routes/project_management/milestones.py:65-89 | NotFound for either lookup, title required, id and the milestone's own project kept |
| MilestoneRoutes.MilestoneTable.Create | routes/project_management/milestones.py:21-58 | the new milestone is appended iff the checks and the commit pass |
| MilestoneRoutes.MilestoneTable.Edit | routes/project_management/milestones.py:63-92 | the milestone replaced iff the checks and the commit pass |
| MilestoneRoutes.MilestoneTable.Delete | routes/project_management/milestones.py:97-102 | NotFound; a refused commit escapes; otherwise Success with the deleted milestone, which is removed |
| ProjectStats.TeamCount | routes/project_management/project_stats.py:12-16 | at most the number of assignments; zero iff the project has none |
| ProjectStats.TotalHours | routes/project_management/project_stats.py:19-23 | the sum of the project's hours; zero (coalesce) when it has no entries |
| ProjectStats.MilestoneCount | routes/project_management/project_stats.py:26-37 | at most the number of milestones; zero for a project without milestones (its exact value is stated by `AllMilestonesOfProject` and `StatusCountIsIndices`) |
| ProjectStats.Stats | routes/project_management/project_stats.py:8-49 | NotFound iff the project is missing; total is the number of the project's milestones, completed the number of them with status "Completed", completed + remaining == total and 0 <= remaining <= total |
| ProjectStats.AllMilestonesOfProject | routes/project_management/project_stats.py:26-30 | the unfiltered count is the number of the project's milestones |
| ProjectStats.StatusCountAtMostTotal | routes/project_management/project_stats.py:32-39 | a status count never exceeds the total count |
| ProjectStats.MilestoneCountAppend | routes/project_management/project_stats.py:26-37 | one more milestone adds one to exactly the counts it matches |
| ProjectStats.StatusCountIsIndices | routes/project_management/project_stats.py:32-37 | the count for status s is the number of positions holding a milestone of the project with status s |
| ProjectStats.TeamCountIsDistinctEmployees | routes/project_management/project_stats.py:12-16 | with Works_On's composite key, the team count is the number of distinct employees on the project |
| ProjectStats.TotalHoursAppend | routes/project_management/project_stats.py:19-23 | a new entry adds its hours to its own project's total only |
| ProjectStats.TotalHoursNonNegative | routes/project_management/project_stats.py:19-23 | with non-negative hours, the total is non-negative |
| ProjectStats.EmptyProject | routes/project_management/project_stats.py:8-49 | an existing project without assignments, entries or milestones shows all zeros |
| Payroll.PayPeriod | routes/hr/payroll.py:32-36 | the month's range exists iff `date()` accepts year, month and the following month's first day |
| Payroll.PeriodIsTheMonth | routes/hr/payroll.py:32-36 | a date is in the range iff it has the period's year and month |
| Payroll.PeriodsTile | routes/hr/payroll.py:32-36 | a period's end is the next period's start |
| Payroll.HoursInIsMonthHours | routes/hr/payroll.py:92-98 | the summed hours are exactly those of the employee's entries dated in the month |
| Payroll.SalaryEntry | routes/hr/payroll.py:60-77 | the salary row: the period, "SALARY", the title's salary as gross and base, taxes per `Withhold` |
| Payroll.HourlyEntry | routes/hr/payroll.py:100-119 | the hourly row: the period, "HOURLY", the rate as base, gross from hours and rate |
| Payroll.SalaryRowExample | routes/hr/payroll.py:60-77 | a 5000.00 salary gives the SALARY row with net 4100.00 |
| Payroll.HourlyRowExample | routes/hr/payroll.py:100-119 | 37.50 hours at 25.00 give the HOURLY row with gross 937.50 and net 768.75 |
| Payroll.SalariedRows | routes/hr/payroll.py:39-43 | the join holds (employee, title) exactly for employees whose title names a title row |
| Payroll.SalariedRowsComplete | routes/hr/payroll.py:39-43 | every employee with a matching title appears in the join |
| Payroll.SalariedStep | routes/hr/payroll.py:47-79 | one salaried iteration: skip, or raise on a null salary, or append the salary row |
| Payroll.SalariedPass | routes/hr/payroll.py:47-79 | the salaried loop only appends, leaves contracted employees alone and keeps (employee, year, month) unique |
| Payroll.HourlyStep | routes/hr/payroll.py:84-121 | one hourly iteration: skip an employee already paid, else append the hourly row |
| Payroll.HourlyPass | routes/hr/payroll.py:82-121 | the hourly loop only appends and keeps (employee, year, month) unique |
| Payroll.Passes | routes/hr/payroll.py:45-121 | both loops: a prefix-preserving extension with new rows only for the period and none of type Salary for contracted employees |
| Payroll.RunPayroll | routes/hr/payroll.py:21-121 | missing fields shown again; `int()` and `date()` raise ValueError; otherwise the two loops |
| Payroll.SalariedRowsPaid | routes/hr/payroll.py:47-79 | every row the salaried loop adds is the salary row of a joined, uncontracted employee |
| Payroll.SalariedPassCovers | routes/hr/payroll.py:47-79 | after the loop every joined, uncontracted employee has a row for the period |
| Payroll.SalariedPassSkipsAll | routes/hr/payroll.py:53-58 | when every employee is already paid, the salaried loop adds nothing |
| Payroll.SalariedFailureCause | routes/hr/payroll.py:60 | the salaried loop fails only at an unpaid, uncontracted employee whose title has a null salary |
| Payroll.NullSalaryFails | routes/hr/payroll.py:60 | with distinct employees, such an employee makes the loop fail |
| Payroll.SalariedRowsDistinct | routes/hr/payroll.py:39-43 | with unique employee numbers, the join lists each employee at most once |
| Payroll.HourlyRowsPaid | routes/hr/payroll.py:84-121 | every row the hourly loop adds is the hourly row of a contract |
| Payroll.HourlyPassCovers | routes/hr/payroll.py:84-121 | after the loop every contracted employee has a row for the period |
| Payroll.HourlyPassSkipsAll | routes/hr/payroll.py:85-90 | when every contracted employee is already paid, the hourly loop adds nothing |
| Payroll.PassesCover | routes/hr/payroll.py:45-121 | after a run, every joined or contracted employee has a row for the period |
| Payroll.PassesAddPayRows | routes/hr/payroll.py:45-121 | every added row is the prescribed salary or hourly row for its employee |
| Payroll.PassesIdempotent | routes/hr/payroll.py:53-90 | running the loops again on their own result adds nothing |
| Payroll.PassesFailure | routes/hr/payroll.py:47-79 | the run fails iff an unpaid, uncontracted joined employee's title has a null salary |
| Payroll.RunTwiceAddsNothing | routes/hr/payroll.py:19-124 | a second run for the same month leaves the ledger as the first run left it |
| Payroll.StagePasses | routes/hr/payroll.py:45-121 | the two while loops compute `Passes`, and `created` counts the rows they add |
| Payroll.PayrollLedger.Run | routes/hr/payroll.py:19-124 | on failure or a refused commit the ledger is unchanged; otherwise it becomes the run's rows |
| Payroll.Selected | routes/hr/payroll.py:134-143 | the join of history rows with their employee, filtered only when year and month are both set and nonzero; each history row gives at most one result |
| Payroll.HistoryOrderMeaning | routes/hr/payroll.py:137 | the sort key orders by year descending, month descending, then name |
| Payroll.History | routes/hr/payroll.py:129-144 | a permutation of the selected rows, year descending, month descending, then names in order |

## Left out

- Rendering, redirects, GET handlers and Flask's request plumbing are not modelled. A form field is the string the handler reads, stripped only where the handler strips it. An absent field is modelled apart from an empty one only where the handler supplies a default other than the empty string (the milestone Status, `Option<string>`); elsewhere both read as "".
- The read-only list pages are not modelled, except for the milestone list and the payroll history: the employee, project, title, Works_On, contract and time-entry lists only display joins.
- The parsing of `int()`, `strptime` and decimal strings is a parameter (`Forms.Parsers`). So is the store's verdict on a commit (`commitOk`). The store's reasons for refusing are not modelled: foreign keys, NOT NULL and Numeric overflow. The `Schema` predicates and lemmas state what those constraints demand.
- Several errors are merged. A flush-time failure (an unparseable amount) and a refused commit are both `Raised(CommitError)`. An `OverflowError` from `date()` for a year outside a C integer is `Raised(ValueError)`.
- The model does not fix the order of unordered query results. It takes rows in table order, and `Tables.Lookup` returns the first match. The `order_by` ties in the history and the milestone list are left in an order `Sorting.SortBy` picks.
- Employee names are never null in the model (`Schema.Employee.name` is a `string`), although `Employee_Name` is a nullable column. The core's handlers never write a null name, so the place a null name would take in the history order (first, under SQLite) is not modelled.
- Payroll.History: names are compared by code point, which is SQLite's default binary collation. Other collations are not modelled.
- Payroll.RunPayroll: the salaried loop's `Decimal(str(None))` failure is the outcome `Raised(InvalidOperation)`. The model does not distinguish the later error that storing a null salary would give, because the code never gets there.
- MilestoneRoutes.EditedMilestone: like the code, it does not check that the milestone belongs to the project in the URL. The milestone keeps its own project number.
- Tables.NextId: the id the store assigns to a new time entry or milestone is assumed to be one more than the largest in use, as SQLite's rowid does; other databases' id sequences are not modelled, and no contract relies on more than the id being fresh.
- The sessions of concurrent requests, and two payroll runs racing for the same month, are not modelled.
- The Building, Room, Division and Department handlers are outside the core. Their tables appear only as far as the core's references need them. The tables ProjectEmployee, TimeEntry, PayrollHistory and ProjectMilestone are not defined in models.py. Their columns are rebuilt from how the routes use them, and that definition is not part of this model.
