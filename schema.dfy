/**
 * The entities of models.py as values, with their primary keys and foreign keys.
 * Amounts are in hundredths; ProjectEmployee, TimeEntry, PayrollHistory and
 * ProjectMilestone are not defined in models.py and are rebuilt from how the routes use them.
 */
module Schema {
  import opened Wrappers
  import opened Dates
  import opened Tables
  import Money

  datatype Division = Division(name: string, head: Option<int>)

  datatype Department = Department(name: string, budget: Option<int>, division: string, head: Option<int>)

  datatype EmployeeTitle = EmployeeTitle(title: string, salary: Option<int>)

  datatype Employee = Employee(
    no: int,
    name: string,
    phone: Option<string>,
    startingDate: Option<Date>,
    title: Option<string>,
    department: Option<string>,
    division: Option<string>)

  datatype Project = Project(
    no: int,
    budget: Option<int>,
    started: Option<Date>,
    ended: Option<Date>,
    department: string,
    manager: int)

  datatype WorksOn = WorksOn(employee: int, project: int, timeSpent: Option<int>, role: Option<string>)

  /** An hourly contract; one per employee, since Employee_No is its key. */
  datatype ProjectEmployee = ProjectEmployee(employee: int, project: int, hourlyRate: int, start: Date, end: Option<Date>)

  /** Hours are in hundredths of an hour. */
  datatype TimeEntry = TimeEntry(id: int, employee: int, project: int, workDate: Date, hours: int)

  /** Rate_Type: "SALARY" or "HOURLY". */
  datatype RateType = Salary | Hourly

  datatype PayrollEntry = PayrollEntry(
    employee: int,
    year: int,
    month: int,
    gross: int,
    federal: int,
    state: int,
    other: int,
    net: int,
    rateType: RateType,
    baseRate: int)

  datatype Milestone = Milestone(
    id: int,
    project: int,
    title: string,
    description: Option<string>,
    status: string,
    due: Option<Date>,
    completed: Option<Date>)

  // Primary keys
  function DivisionKey(d: Division): string { d.name }
  function DepartmentKey(d: Department): string { d.name }
  function TitleKey(t: EmployeeTitle): string { t.title }
  function EmployeeKey(e: Employee): int { e.no }
  function ProjectKey(p: Project): int { p.no }
  function WorksOnKey(w: WorksOn): (int, int) { (w.employee, w.project) }
  function ContractKey(c: ProjectEmployee): int { c.employee }
  function EntryKey(t: TimeEntry): int { t.id }
  function MilestoneKey(m: Milestone): int { m.id }
  /** Not a key of the store: the payroll run keeps it unique itself. */
  function PeriodKey(p: PayrollEntry): (int, int, int) { (p.employee, p.year, p.month) }

  /** A two-decimal amount fits Numeric(precision, 2). */
  predicate FitsNumeric(precision: nat, hundredths: int) {
    var bound: int := Money.Pow10(precision);
    -bound < hundredths < bound
  }

  predicate FitsOptional(precision: nat, amount: Option<int>) {
    amount.Some? ==> FitsNumeric(precision, amount.value)
  }

  datatype Store = Store(
    divisions: seq<Division>,
    departments: seq<Department>,
    titles: seq<EmployeeTitle>,
    employees: seq<Employee>,
    projects: seq<Project>,
    worksOn: seq<WorksOn>,
    contracts: seq<ProjectEmployee>,
    entries: seq<TimeEntry>,
    payroll: seq<PayrollEntry>,
    milestones: seq<Milestone>)

  predicate KeysHold(s: Store) {
    && UniqueKeys(s.divisions, DivisionKey)
    && UniqueKeys(s.departments, DepartmentKey)
    && UniqueKeys(s.titles, TitleKey)
    && UniqueKeys(s.employees, EmployeeKey)
    && UniqueKeys(s.projects, ProjectKey)
    && UniqueKeys(s.worksOn, WorksOnKey)
    && UniqueKeys(s.contracts, ContractKey)
    && UniqueKeys(s.entries, EntryKey)
    && UniqueKeys(s.milestones, MilestoneKey)
  }

  predicate ColumnsFit(s: Store) {
    && (forall d :: d in s.departments ==> FitsOptional(12, d.budget))
    && (forall t :: t in s.titles ==> FitsOptional(12, t.salary))
    && (forall p :: p in s.projects ==> FitsOptional(12, p.budget))
    && (forall w :: w in s.worksOn ==> FitsOptional(10, w.timeSpent))
  }

  predicate IsEmployee(s: Store, no: int) { HasKey(s.employees, EmployeeKey, no) }
  predicate IsProject(s: Store, no: int) { HasKey(s.projects, ProjectKey, no) }

  /** Every reference to an employee names an existing employee (null heads name nobody). */
  predicate EmployeeRefsResolve(s: Store) {
    && (forall d :: d in s.divisions && d.head.Some? ==> IsEmployee(s, d.head.value))
    && (forall d :: d in s.departments && d.head.Some? ==> IsEmployee(s, d.head.value))
    && (forall p :: p in s.projects ==> IsEmployee(s, p.manager))
    && (forall w :: w in s.worksOn ==> IsEmployee(s, w.employee))
    && (forall c :: c in s.contracts ==> IsEmployee(s, c.employee))
    && (forall t :: t in s.entries ==> IsEmployee(s, t.employee))
    && (forall x :: x in s.payroll ==> IsEmployee(s, x.employee))
  }

  /** Every reference to a project names an existing project. */
  predicate ProjectRefsResolve(s: Store) {
    && (forall w :: w in s.worksOn ==> IsProject(s, w.project))
    && (forall c :: c in s.contracts ==> IsProject(s, c.project))
    && (forall t :: t in s.entries ==> IsProject(s, t.project))
    && (forall m :: m in s.milestones ==> IsProject(s, m.project))
  }

  /** An employee's title, department and division, when not null, exist. */
  predicate EmployeeAttributesResolve(s: Store) {
    && (forall e :: e in s.employees && e.title.Some? ==> HasKey(s.titles, TitleKey, e.title.value))
    && (forall e :: e in s.employees && e.department.Some? ==> HasKey(s.departments, DepartmentKey, e.department.value))
    && (forall e :: e in s.employees && e.division.Some? ==> HasKey(s.divisions, DivisionKey, e.division.value))
  }

  /** A department's division and a project's department exist. */
  predicate OrganisationRefsResolve(s: Store) {
    && (forall d :: d in s.departments ==> HasKey(s.divisions, DivisionKey, d.division))
    && (forall p :: p in s.projects ==> HasKey(s.departments, DepartmentKey, p.department))
  }

  /** Every foreign key names an existing row. */
  predicate ReferencesResolve(s: Store) {
    && EmployeeRefsResolve(s)
    && ProjectRefsResolve(s)
    && EmployeeAttributesResolve(s)
    && OrganisationRefsResolve(s)
  }

  /** Some row of the store refers to employee n. */
  predicate EmployeeReferenced(s: Store, n: int) {
    || (exists d :: d in s.divisions && d.head == Some(n))
    || (exists d :: d in s.departments && d.head == Some(n))
    || (exists p :: p in s.projects && p.manager == n)
    || (exists w :: w in s.worksOn && w.employee == n)
    || (exists c :: c in s.contracts && c.employee == n)
    || (exists t :: t in s.entries && t.employee == n)
    || (exists x :: x in s.payroll && x.employee == n)
  }

  /** Some row of the store refers to project n. */
  predicate ProjectReferenced(s: Store, n: int) {
    || (exists w :: w in s.worksOn && w.project == n)
    || (exists c :: c in s.contracts && c.project == n)
    || (exists t :: t in s.entries && t.project == n)
    || (exists m :: m in s.milestones && m.project == n)
  }

  function WithoutEmployee(s: Store, n: int): Store {
    s.(employees := Remove(s.employees, EmployeeKey, n))
  }

  function WithoutProject(s: Store, n: int): Store {
    s.(projects := Remove(s.projects, ProjectKey, n))
  }

  function WithoutTitle(s: Store, name: string): Store {
    s.(titles := Remove(s.titles, TitleKey, name))
  }

  lemma RemovedRowsWereThere<K, R>(rows: seq<R>, key: R -> K, k: K)
    ensures forall x :: x in Remove(rows, key, k) ==> x in rows
  {
    var r := Remove(rows, key, k);
    forall x | x in r ensures x in rows {
      assert x in multiset(r);
    }
  }

  /**
   * The single delete the employee handler issues keeps every reference resolving exactly
   * when no row refers to the employee: a store that enforces its foreign keys refuses the
   * commit otherwise, and the handler's rollback then leaves everything as it was.
   */
  lemma DeleteEmployeeKeepsReferences(s: Store, n: int)
    requires ReferencesResolve(s)
    ensures ReferencesResolve(WithoutEmployee(s, n)) <==> !EmployeeReferenced(s, n)
  {
    var s' := WithoutEmployee(s, n);
    forall m ensures IsEmployee(s', m) <==> IsEmployee(s, m) && m != n {
      RemoveHasKey(s.employees, EmployeeKey, n, m);
    }
    RemovedRowsWereThere(s.employees, EmployeeKey, n);
    assert EmployeeAttributesResolve(s');
    assert ProjectRefsResolve(s') && OrganisationRefsResolve(s');
    assert EmployeeRefsResolve(s') <==> !EmployeeReferenced(s, n);
  }

  /** The same for the project handler's single delete. */
  lemma DeleteProjectKeepsReferences(s: Store, n: int)
    requires ReferencesResolve(s)
    ensures ReferencesResolve(WithoutProject(s, n)) <==> !ProjectReferenced(s, n)
  {
    var s' := WithoutProject(s, n);
    forall m ensures IsProject(s', m) <==> IsProject(s, m) && m != n {
      RemoveHasKey(s.projects, ProjectKey, n, m);
    }
    RemovedRowsWereThere(s.projects, ProjectKey, n);
    assert EmployeeRefsResolve(s');
    assert EmployeeAttributesResolve(s') && OrganisationRefsResolve(s');
    assert ProjectRefsResolve(s') <==> !ProjectReferenced(s, n);
  }

  /** The same for the title handler's single delete: employees holding the title block it. */
  lemma DeleteTitleKeepsReferences(s: Store, name: string)
    requires ReferencesResolve(s)
    ensures ReferencesResolve(WithoutTitle(s, name)) <==> !(exists e :: e in s.employees && e.title == Some(name))
  {
    var s' := WithoutTitle(s, name);
    forall t ensures HasKey(s'.titles, TitleKey, t) <==> HasKey(s.titles, TitleKey, t) && t != name {
      RemoveHasKey(s.titles, TitleKey, name, t);
    }
    assert EmployeeRefsResolve(s') && ProjectRefsResolve(s') && OrganisationRefsResolve(s');
  }

  /** Deleting a row keeps every key and column constraint. */
  lemma DeleteKeepsKeysAndColumns(s: Store, employee: int, project: int, title: string)
    requires KeysHold(s) && ColumnsFit(s)
    ensures KeysHold(WithoutEmployee(s, employee)) && ColumnsFit(WithoutEmployee(s, employee))
    ensures KeysHold(WithoutProject(s, project)) && ColumnsFit(WithoutProject(s, project))
    ensures KeysHold(WithoutTitle(s, title)) && ColumnsFit(WithoutTitle(s, title))
  {
    RemoveKeepsUnique(s.employees, EmployeeKey, employee);
    RemoveKeepsUnique(s.projects, ProjectKey, project);
    RemoveKeepsUnique(s.titles, TitleKey, title);
    RemovedRowsWereThere(s.projects, ProjectKey, project);
    RemovedRowsWereThere(s.titles, TitleKey, title);
  }
}
