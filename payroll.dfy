/**
 * routes/hr/payroll.py: the monthly payroll run and the payroll history page.
 * A run adds one PayrollHistory row per salaried employee (through the title's salary) and
 * per hourly contract, skipping every (employee, year, month) that already has a row.
 */
module Payroll {
  import opened Wrappers
  import opened Dates
  import opened Forms
  import opened Tables
  import opened Sorting
  import opened Schema
  import opened Money

  const RequiredMessage := "Year and month are required."

  /** The half-open range [start, end) of work dates whose hours a run pays. */
  datatype Period = Period(start: Date, end: Date)

  /**
   * The first of the month and the first of the following month, December rolling over to
   * January of the next year. None where `date()` raises: a month outside 1..12, a year
   * outside 1..9999, or December 9999, whose end would be in year 10000.
   */
  function PayPeriod(year: int, month: int): (r: Option<Period>)
    ensures r.Some? <==> MinYear <= year <= MaxYear && 1 <= month <= 12 && !(year == MaxYear && month == 12)
    ensures r.Some? ==> r.value.start == CalendarDate(year, month, 1)
  {
    match MakeDate(year, month, 1)
    case None => None
    case Some(start) =>
      match (if month == 12 then MakeDate(year + 1, 1, 1) else MakeDate(year, month + 1, 1))
      case None => None
      case Some(end) => Some(Period(start, end))
  }

  /** `Work_Date >= start` and `Work_Date < end`. */
  predicate InPeriod(d: Date, period: Period) {
    NotAfter(period.start, d) && Before(d, period.end)
  }

  /** The pay period holds exactly the days of its calendar month. */
  lemma PeriodIsTheMonth(year: int, month: int, d: Date)
    requires PayPeriod(year, month).Some?
    ensures InPeriod(d, PayPeriod(year, month).value) <==> d.year == year && d.month == month
  {
  }

  /** Consecutive months' periods meet: one ends where the next begins. */
  lemma PeriodsTile(year: int, month: int)
    requires PayPeriod(year, month).Some?
    ensures var next := if month == 12 then (year + 1, 1) else (year, month + 1);
            PayPeriod(next.0, next.1).Some? ==> PayPeriod(year, month).value.end == PayPeriod(next.0, next.1).value.start
  {
  }

  /** `coalesce(sum(Hours), 0)` over one employee's entries dated in the period, on any project. */
  function HoursIn(entries: seq<TimeEntry>, employee: int, period: Period): int {
    if entries == [] then 0
    else
      var t := entries[0];
      (if t.employee == employee && InPeriod(t.workDate, period) then t.hours else 0) + HoursIn(entries[1..], employee, period)
  }

  /** A reference definition: the employee's hours logged on days of the given calendar month. */
  function MonthHours(entries: seq<TimeEntry>, employee: int, year: int, month: int): int {
    if entries == [] then 0
    else
      var t := entries[0];
      (if t.employee == employee && t.workDate.year == year && t.workDate.month == month then t.hours else 0)
      + MonthHours(entries[1..], employee, year, month)
  }

  lemma {:induction false} HoursInIsMonthHours(entries: seq<TimeEntry>, employee: int, year: int, month: int)
    requires PayPeriod(year, month).Some?
    ensures HoursIn(entries, employee, PayPeriod(year, month).value) == MonthHours(entries, employee, year, month)
  {
    if entries != [] {
      PeriodIsTheMonth(year, month, entries[0].workDate);
      HoursInIsMonthHours(entries[1..], employee, year, month);
    }
  }

  /** The history row for a salaried employee: gross and base rate are the salary. */
  function SalaryEntry(employee: int, year: int, month: int, salary: int): (r: PayrollEntry)
    ensures r.rateType == Salary && r.gross == salary && r.baseRate == salary
    ensures r.employee == employee && r.year == year && r.month == month
    ensures Withhold(r.gross) == Withholding(r.federal, r.state, r.other, r.net)
  {
    var w := Withhold(salary);
    PayrollEntry(employee, year, month, salary, w.federal, w.state, w.other, w.net, Salary, salary)
  }

  /** The history row for an hourly contract: gross is hours times rate, rounded to cents. */
  function HourlyEntry(c: ProjectEmployee, year: int, month: int, hours: int): (r: PayrollEntry)
    ensures r.rateType == Hourly && r.baseRate == c.hourlyRate
    ensures IsHalfEvenRounding(hours * c.hourlyRate, 100, r.gross)
    ensures r.employee == c.employee && r.year == year && r.month == month
    ensures Withhold(r.gross) == Withholding(r.federal, r.state, r.other, r.net)
  {
    var gross := HourlyGross(hours, c.hourlyRate);
    var w := Withhold(gross);
    PayrollEntry(c.employee, year, month, gross, w.federal, w.state, w.other, w.net, Hourly, c.hourlyRate)
  }

  /** A salary of 5000.00 is paid as 500.00, 250.00 and 150.00 withheld and 4100.00 net. */
  lemma SalaryRowExample(employee: int)
    ensures SalaryEntry(employee, 2024, 3, 500000)
            == PayrollEntry(employee, 2024, 3, 500000, 50000, 25000, 15000, 410000, Salary, 500000)
  {
    SalaryExample();
  }

  /**
   * 37.50 hours at 25.00 are 937.50 gross; 3% of it, 28.125, is a tie rounded to the even
   * 28.12, so net is 768.75.
   */
  lemma HourlyRowExample(c: ProjectEmployee)
    requires c.hourlyRate == 2500
    ensures HourlyEntry(c, 2024, 3, 3750) == PayrollEntry(c.employee, 2024, 3, 93750, 9375, 4688, 2812, 76875, Hourly, 2500)
  {
    HourlyExample();
  }

  predicate HasEntry(ledger: seq<PayrollEntry>, employee: int, year: int, month: int) {
    HasKey(ledger, PeriodKey, (employee, year, month))
  }

  /** Adding a row for a period the session has no row for keeps one row per period. */
  lemma AppendKeepsUnique(session: seq<PayrollEntry>, x: PayrollEntry)
    requires !HasKey(session, PeriodKey, PeriodKey(x))
    ensures UniqueKeys(session, PeriodKey) ==> UniqueKeys(session + [x], PeriodKey)
  {
    if UniqueKeys(session, PeriodKey) {
      InsertFresh(session, PeriodKey, x);
    }
  }

  /**
   * The inner join of Employee with Employee_Title on the title name, in employee order: an
   * employee without a title, or whose title is missing, drops out; a null salary does not.
   */
  function SalariedRows(employees: seq<Employee>, titles: seq<EmployeeTitle>): (r: seq<(Employee, EmployeeTitle)>)
    ensures forall x :: x in r ==> x.0 in employees && x.1 in titles && x.0.title == Some(x.1.title)
  {
    if employees == [] then []
    else
      assert forall x :: x in employees[1..] ==> x in employees;
      TitleOf(employees[0], titles) + SalariedRows(employees[1..], titles)
  }

  /** One employee's part of the join: its title row, if any. */
  function TitleOf(e: Employee, titles: seq<EmployeeTitle>): (r: seq<(Employee, EmployeeTitle)>)
    ensures |r| <= 1
    ensures r != [] <==> e.title.Some? && HasKey(titles, TitleKey, e.title.value)
    ensures forall x :: x in r ==> x.0 == e && x.1 in titles && e.title == Some(x.1.title)
  {
    if e.title.None? then []
    else match Lookup(titles, TitleKey, e.title.value)
      case None => []
      case Some(t) => [(e, t)]
  }

  /** Every employee whose title exists takes part in the join. */
  lemma {:induction false} SalariedRowsComplete(employees: seq<Employee>, titles: seq<EmployeeTitle>, e: Employee)
    requires e in employees && e.title.Some? && HasKey(titles, TitleKey, e.title.value)
    ensures exists k :: 0 <= k < |SalariedRows(employees, titles)| && SalariedRows(employees, titles)[k].0 == e
  {
    var r := SalariedRows(employees, titles);
    var rest := SalariedRows(employees[1..], titles);
    var n := |TitleOf(employees[0], titles)|;
    assert r == TitleOf(employees[0], titles) + rest;
    if e == employees[0] {
      assert r[0] == TitleOf(e, titles)[0];
    } else {
      assert e in employees[1..];
      SalariedRowsComplete(employees[1..], titles, e);
      var k :| 0 <= k < |rest| && rest[k].0 == e;
      assert r[n + k] == rest[k];
    }
  }

  /** The salaried loop skips an employee with an hourly contract or with a row for the month. */
  predicate SalariedSkips(row: (Employee, EmployeeTitle), contracts: seq<ProjectEmployee>, year: int, month: int,
                          session: seq<PayrollEntry>) {
    HasKey(contracts, ContractKey, row.0.no) || HasEntry(session, row.0.no, year, month)
  }

  /**
   * One iteration of the salaried loop, with `session` the history as the existence query sees
   * it (the store's rows and the rows added so far). A null salary raises.
   */
  function SalariedStep(row: (Employee, EmployeeTitle), contracts: seq<ProjectEmployee>, year: int, month: int,
                        session: seq<PayrollEntry>): (r: Result<seq<PayrollEntry>>)
    ensures r.Failure? <==> !SalariedSkips(row, contracts, year, month, session) && row.1.salary.None?
    ensures r.Failure? ==> r.error == Raised(InvalidOperation)
    ensures r.Success? && SalariedSkips(row, contracts, year, month, session) ==> r.value == session
    ensures r.Success? && !SalariedSkips(row, contracts, year, month, session)
            ==> r.value == session + [SalaryEntry(row.0.no, year, month, row.1.salary.value)]
    ensures r.Success? && UniqueKeys(session, PeriodKey) ==> UniqueKeys(r.value, PeriodKey)
  {
    if SalariedSkips(row, contracts, year, month, session) then Success(session)
    else if row.1.salary.None? then Failure(Raised(InvalidOperation))
    else
      var x := SalaryEntry(row.0.no, year, month, row.1.salary.value);
      AppendKeepsUnique(session, x);
      Success(session + [x])
  }

  /** The salaried loop over the joined rows. */
  function SalariedPass(rows: seq<(Employee, EmployeeTitle)>, contracts: seq<ProjectEmployee>, year: int, month: int,
                        session: seq<PayrollEntry>): (r: Result<seq<PayrollEntry>>)
    ensures r.Failure? ==> r.error == Raised(InvalidOperation)
    ensures r.Success? ==> session <= r.value
    ensures r.Success? ==> forall k :: |session| <= k < |r.value| ==>
              r.value[k].year == year && r.value[k].month == month && r.value[k].rateType == Salary
              && !HasKey(contracts, ContractKey, r.value[k].employee)
    ensures r.Success? && UniqueKeys(session, PeriodKey) ==> UniqueKeys(r.value, PeriodKey)
  {
    if rows == [] then Success(session)
    else match SalariedStep(rows[0], contracts, year, month, session)
      case Failure(err) => Failure(err)
      case Success(next) =>
        SalariedPass(rows[1..], contracts, year, month, next)
  }

  /** One iteration of the hourly loop: a contract whose employee has a row for the month is skipped. */
  function HourlyStep(c: ProjectEmployee, entries: seq<TimeEntry>, year: int, month: int, period: Period,
                      session: seq<PayrollEntry>): (r: seq<PayrollEntry>)
    ensures HasEntry(session, c.employee, year, month) ==> r == session
    ensures !HasEntry(session, c.employee, year, month)
            ==> r == session + [HourlyEntry(c, year, month, HoursIn(entries, c.employee, period))]
    ensures UniqueKeys(session, PeriodKey) ==> UniqueKeys(r, PeriodKey)
  {
    if HasEntry(session, c.employee, year, month) then session
    else
      var x := HourlyEntry(c, year, month, HoursIn(entries, c.employee, period));
      AppendKeepsUnique(session, x);
      session + [x]
  }

  /** The hourly loop over the contracts; it never fails. */
  function HourlyPass(contracts: seq<ProjectEmployee>, entries: seq<TimeEntry>, year: int, month: int, period: Period,
                      session: seq<PayrollEntry>): (r: seq<PayrollEntry>)
    ensures session <= r
    ensures forall k :: |session| <= k < |r| ==> r[k].year == year && r[k].month == month && r[k].rateType == Hourly
    ensures UniqueKeys(session, PeriodKey) ==> UniqueKeys(r, PeriodKey)
  {
    if contracts == [] then session
    else
      var next := HourlyStep(contracts[0], entries, year, month, period, session);
      HourlyPass(contracts[1..], entries, year, month, period, next)
  }

  /** Both passes, on a valid period, over the store `ledger` (the PayrollHistory rows). */
  function Passes(ledger: seq<PayrollEntry>, employees: seq<Employee>, titles: seq<EmployeeTitle>,
                  contracts: seq<ProjectEmployee>, entries: seq<TimeEntry>, year: int, month: int, period: Period)
    : (r: Result<seq<PayrollEntry>>)
    ensures r.Failure? ==> r.error == Raised(InvalidOperation)
    ensures r.Success? ==> ledger <= r.value
    ensures r.Success? ==> forall k :: |ledger| <= k < |r.value| ==> r.value[k].year == year && r.value[k].month == month
    ensures r.Success? ==> forall k :: |ledger| <= k < |r.value| && r.value[k].rateType == Salary
                                       ==> !HasKey(contracts, ContractKey, r.value[k].employee)
    ensures r.Success? && UniqueKeys(ledger, PeriodKey) ==> UniqueKeys(r.value, PeriodKey)
  {
    match SalariedPass(SalariedRows(employees, titles), contracts, year, month, ledger)
    case Failure(err) => Failure(err)
    case Success(s) =>
      var h := HourlyPass(contracts, entries, year, month, period, s);
      assert forall k :: |ledger| <= k < |s| ==> h[k] == s[k];
      Success(h)
  }

  /**
   * run_payroll (POST) up to the commit: the history after the run. Missing fields are shown
   * again; `int()` and `date()` may raise.
   */
  function RunPayroll(ledger: seq<PayrollEntry>, employees: seq<Employee>, titles: seq<EmployeeTitle>,
                      contracts: seq<ProjectEmployee>, entries: seq<TimeEntry>, p: Parsers,
                      yearText: string, monthText: string): (r: Result<seq<PayrollEntry>>)
    ensures yearText == "" || monthText == "" ==> r == Failure(Rejected(RequiredMessage))
    ensures yearText != "" && monthText != "" && (p.toInt(yearText).None? || p.toInt(monthText).None?)
            ==> r == Failure(Raised(ValueError))
    ensures (yearText != "" && monthText != "" && p.toInt(yearText).Some? && p.toInt(monthText).Some?
             && PayPeriod(p.toInt(yearText).value, p.toInt(monthText).value).None?) ==> r == Failure(Raised(ValueError))
    ensures (yearText != "" && monthText != "" && p.toInt(yearText).Some? && p.toInt(monthText).Some?
             && PayPeriod(p.toInt(yearText).value, p.toInt(monthText).value).Some?)
            ==> r == Passes(ledger, employees, titles, contracts, entries, p.toInt(yearText).value, p.toInt(monthText).value,
                            PayPeriod(p.toInt(yearText).value, p.toInt(monthText).value).value)
  {
    if yearText == "" || monthText == "" then Failure(Rejected(RequiredMessage))
    else match (p.toInt(yearText), p.toInt(monthText))
      case (Some(year), Some(month)) =>
        (match PayPeriod(year, month)
         case None => Failure(Raised(ValueError))
         case Some(period) => Passes(ledger, employees, titles, contracts, entries, year, month, period))
      case _ => Failure(Raised(ValueError))
  }

  /** x is the salary row, for the month, of one of the joined rows with a salary. */
  predicate IsSalaryRowOf(x: PayrollEntry, rows: seq<(Employee, EmployeeTitle)>, year: int, month: int) {
    exists j :: 0 <= j < |rows| && rows[j].1.salary.Some? && x == SalaryEntry(rows[j].0.no, year, month, rows[j].1.salary.value)
  }

  /** Every row the salaried pass adds is the salary row of a joined employee with a salary. */
  lemma {:induction false} SalariedRowsPaid(rows: seq<(Employee, EmployeeTitle)>, contracts: seq<ProjectEmployee>,
                                            year: int, month: int, session: seq<PayrollEntry>)
    requires SalariedPass(rows, contracts, year, month, session).Success?
    ensures var r := SalariedPass(rows, contracts, year, month, session).value;
            forall k :: |session| <= k < |r| ==> IsSalaryRowOf(r[k], rows, year, month)
  {
    if rows != [] {
      var next := SalariedStep(rows[0], contracts, year, month, session).value;
      var r := SalariedPass(rows, contracts, year, month, session).value;
      assert r == SalariedPass(rows[1..], contracts, year, month, next).value;
      SalariedRowsPaid(rows[1..], contracts, year, month, next);
      forall k | |session| <= k < |r| ensures IsSalaryRowOf(r[k], rows, year, month) {
        if k < |next| {
          assert r[k] == next[k];
          assert rows[0].1.salary.Some? && r[k] == SalaryEntry(rows[0].0.no, year, month, rows[0].1.salary.value);
        } else {
          assert IsSalaryRowOf(r[k], rows[1..], year, month);
          var j :| 0 <= j < |rows[1..]| && rows[1..][j].1.salary.Some?
                   && r[k] == SalaryEntry(rows[1..][j].0.no, year, month, rows[1..][j].1.salary.value);
          assert rows[1..][j] == rows[j + 1];
        }
      }
    }
  }

  /**
   * After a successful salaried pass, every joined employee without an hourly contract has a
   * row for the month.
   */
  lemma {:induction false} SalariedPassCovers(rows: seq<(Employee, EmployeeTitle)>, contracts: seq<ProjectEmployee>,
                                              year: int, month: int, session: seq<PayrollEntry>)
    requires SalariedPass(rows, contracts, year, month, session).Success?
    ensures var r := SalariedPass(rows, contracts, year, month, session).value;
            forall j :: 0 <= j < |rows| && !HasKey(contracts, ContractKey, rows[j].0.no)
              ==> HasEntry(r, rows[j].0.no, year, month)
  {
    if rows != [] {
      var e := rows[0].0;
      var next := SalariedStep(rows[0], contracts, year, month, session).value;
      var r := SalariedPass(rows, contracts, year, month, session).value;
      assert r == SalariedPass(rows[1..], contracts, year, month, next).value;
      SalariedPassCovers(rows[1..], contracts, year, month, next);
      if !HasKey(contracts, ContractKey, e.no) {
        if !HasEntry(session, e.no, year, month) {
          HasKeyAppend(session, PeriodKey, next[|session|], (e.no, year, month));
        }
        HasKeyExtended(next, r, PeriodKey, (e.no, year, month));
      }
      forall j | 1 <= j < |rows| && !HasKey(contracts, ContractKey, rows[j].0.no)
        ensures HasEntry(r, rows[j].0.no, year, month)
      {
        assert rows[1..][j - 1] == rows[j];
      }
    }
  }

  /** A salaried pass in which everyone is skipped adds nothing and does not fail. */
  lemma {:induction false} SalariedPassSkipsAll(rows: seq<(Employee, EmployeeTitle)>, contracts: seq<ProjectEmployee>,
                                                year: int, month: int, session: seq<PayrollEntry>)
    requires forall j :: 0 <= j < |rows| ==> SalariedSkips(rows[j], contracts, year, month, session)
    ensures SalariedPass(rows, contracts, year, month, session) == Success(session)
  {
    if rows != [] {
      assert forall j :: 0 <= j < |rows| - 1 ==> rows[1..][j] == rows[j + 1];
      SalariedPassSkipsAll(rows[1..], contracts, year, month, session);
    }
  }

  /** A salaried row the pass does not skip and whose salary is null. */
  predicate NullSalaryReached(rows: seq<(Employee, EmployeeTitle)>, contracts: seq<ProjectEmployee>,
                              year: int, month: int, session: seq<PayrollEntry>, j: int) {
    0 <= j < |rows| && rows[j].1.salary.None? && !SalariedSkips(rows[j], contracts, year, month, session)
  }

  /** The salaried pass fails only on a null salary of an employee it does not skip. */
  lemma {:induction false} SalariedFailureCause(rows: seq<(Employee, EmployeeTitle)>, contracts: seq<ProjectEmployee>,
                                                year: int, month: int, session: seq<PayrollEntry>)
    requires SalariedPass(rows, contracts, year, month, session).Failure?
    ensures exists j :: NullSalaryReached(rows, contracts, year, month, session, j)
  {
    var step := SalariedStep(rows[0], contracts, year, month, session);
    if step.Failure? {
      assert NullSalaryReached(rows, contracts, year, month, session, 0);
    } else {
      var next := step.value;
      SalariedFailureCause(rows[1..], contracts, year, month, next);
      var j :| NullSalaryReached(rows[1..], contracts, year, month, next, j);
      assert rows[1..][j] == rows[j + 1];
      if next != session {
        HasKeyAppend(session, PeriodKey, next[|session|], (rows[j + 1].0.no, year, month));
      }
      assert NullSalaryReached(rows, contracts, year, month, session, j + 1);
    }
  }

  predicate DistinctEmployees(rows: seq<(Employee, EmployeeTitle)>) {
    forall i, j :: 0 <= i < j < |rows| ==> rows[i].0.no != rows[j].0.no
  }

  /** Conversely, when each employee is joined once, a null salary the pass reaches makes it fail. */
  lemma {:induction false} NullSalaryFails(rows: seq<(Employee, EmployeeTitle)>, contracts: seq<ProjectEmployee>,
                                           year: int, month: int, session: seq<PayrollEntry>, j: int)
    requires DistinctEmployees(rows) && NullSalaryReached(rows, contracts, year, month, session, j)
    ensures SalariedPass(rows, contracts, year, month, session) == Failure(Raised(InvalidOperation))
  {
    var step := SalariedStep(rows[0], contracts, year, month, session);
    if j > 0 && step.Success? {
      var next := step.value;
      assert rows[1..][j - 1] == rows[j];
      assert DistinctEmployees(rows[1..]) by {
        forall a, b | 0 <= a < b < |rows| - 1 ensures rows[1..][a].0.no != rows[1..][b].0.no {
          assert rows[1..][a] == rows[a + 1] && rows[1..][b] == rows[b + 1];
        }
      }
      if next != session {
        assert rows[0].0.no != rows[j].0.no;
        HasKeyAppend(session, PeriodKey, next[|session|], (rows[j].0.no, year, month));
      }
      NullSalaryFails(rows[1..], contracts, year, month, next, j - 1);
    }
  }

  /** Under unique keys the first employee's number belongs to no later employee. */
  lemma FirstEmployeeUnique(employees: seq<Employee>)
    requires employees != [] && UniqueKeys(employees, EmployeeKey)
    ensures forall e :: e in employees[1..] ==> e.no != employees[0].no
  {
    forall e | e in employees[1..] ensures e.no != employees[0].no {
      var i :| 0 <= i < |employees[1..]| && employees[1..][i] == e;
      assert Keys(employees, EmployeeKey)[0] != Keys(employees, EmployeeKey)[i + 1];
    }
  }

  /** With employee numbers unique, the join holds each employee at most once. */
  lemma {:induction false} SalariedRowsDistinct(employees: seq<Employee>, titles: seq<EmployeeTitle>)
    requires UniqueKeys(employees, EmployeeKey)
    ensures DistinctEmployees(SalariedRows(employees, titles))
  {
    if employees != [] {
      var here := TitleOf(employees[0], titles);
      var rest := SalariedRows(employees[1..], titles);
      assert Keys(employees[1..], EmployeeKey) == Keys(employees, EmployeeKey)[1..];
      SalariedRowsDistinct(employees[1..], titles);
      FirstEmployeeUnique(employees);
      var r := here + rest;
      assert r == SalariedRows(employees, titles);
      forall a, b | 0 <= a < b < |r| ensures r[a].0.no != r[b].0.no {
        if a < |here| {
          assert r[b] == rest[b - |here|];
          assert r[b].0 in employees[1..];
        } else {
          assert r[a] == rest[a - |here|] && r[b] == rest[b - |here|];
        }
      }
    }
  }

  /** x is the hourly row, for the month, of one of the contracts, paid for the employee's hours in the period. */
  predicate IsHourlyRowOf(x: PayrollEntry, contracts: seq<ProjectEmployee>, entries: seq<TimeEntry>,
                          year: int, month: int, period: Period) {
    exists j :: 0 <= j < |contracts| && x == HourlyEntry(contracts[j], year, month, HoursIn(entries, contracts[j].employee, period))
  }

  /** Every row the hourly pass adds is the hourly row of one of the contracts. */
  lemma {:induction false} HourlyRowsPaid(contracts: seq<ProjectEmployee>, entries: seq<TimeEntry>, year: int, month: int,
                                          period: Period, session: seq<PayrollEntry>)
    ensures var r := HourlyPass(contracts, entries, year, month, period, session);
            forall k :: |session| <= k < |r| ==> IsHourlyRowOf(r[k], contracts, entries, year, month, period)
  {
    if contracts != [] {
      var next := HourlyStep(contracts[0], entries, year, month, period, session);
      var r := HourlyPass(contracts, entries, year, month, period, session);
      assert r == HourlyPass(contracts[1..], entries, year, month, period, next);
      HourlyRowsPaid(contracts[1..], entries, year, month, period, next);
      forall k | |session| <= k < |r| ensures IsHourlyRowOf(r[k], contracts, entries, year, month, period) {
        if k < |next| {
          assert r[k] == next[k];
          assert r[k] == HourlyEntry(contracts[0], year, month, HoursIn(entries, contracts[0].employee, period));
        } else {
          assert IsHourlyRowOf(r[k], contracts[1..], entries, year, month, period);
          var j :| 0 <= j < |contracts[1..]|
                   && r[k] == HourlyEntry(contracts[1..][j], year, month, HoursIn(entries, contracts[1..][j].employee, period));
          assert contracts[1..][j] == contracts[j + 1];
        }
      }
    }
  }

  /** After the hourly pass every contract's employee has a row for the month. */
  lemma {:induction false} HourlyPassCovers(contracts: seq<ProjectEmployee>, entries: seq<TimeEntry>, year: int, month: int,
                                            period: Period, session: seq<PayrollEntry>)
    ensures var r := HourlyPass(contracts, entries, year, month, period, session);
            forall j :: 0 <= j < |contracts| ==> HasEntry(r, contracts[j].employee, year, month)
  {
    if contracts != [] {
      var c := contracts[0];
      var next := HourlyStep(c, entries, year, month, period, session);
      var r := HourlyPass(contracts, entries, year, month, period, session);
      assert r == HourlyPass(contracts[1..], entries, year, month, period, next);
      HourlyPassCovers(contracts[1..], entries, year, month, period, next);
      if !HasEntry(session, c.employee, year, month) {
        HasKeyAppend(session, PeriodKey, next[|session|], (c.employee, year, month));
      }
      HasKeyExtended(next, r, PeriodKey, (c.employee, year, month));
      forall j | 1 <= j < |contracts| ensures HasEntry(r, contracts[j].employee, year, month) {
        assert contracts[1..][j - 1] == contracts[j];
      }
    }
  }

  /** An hourly pass over contracts that all have a row for the month adds nothing. */
  lemma {:induction false} HourlyPassSkipsAll(contracts: seq<ProjectEmployee>, entries: seq<TimeEntry>, year: int, month: int,
                                              period: Period, session: seq<PayrollEntry>)
    requires forall j :: 0 <= j < |contracts| ==> HasEntry(session, contracts[j].employee, year, month)
    ensures HourlyPass(contracts, entries, year, month, period, session) == session
  {
    if contracts != [] {
      assert forall j :: 0 <= j < |contracts| - 1 ==> contracts[1..][j] == contracts[j + 1];
      HourlyPassSkipsAll(contracts[1..], entries, year, month, period, session);
    }
  }

  /**
   * After a successful run of both passes, every joined employee without a contract and every
   * contract's employee has a row for the month.
   */
  lemma PassesCover(ledger: seq<PayrollEntry>, employees: seq<Employee>, titles: seq<EmployeeTitle>,
                    contracts: seq<ProjectEmployee>, entries: seq<TimeEntry>, year: int, month: int, period: Period,
                    r: seq<PayrollEntry>)
    requires Passes(ledger, employees, titles, contracts, entries, year, month, period) == Success(r)
    ensures forall j :: 0 <= j < |SalariedRows(employees, titles)|
              ==> SalariedSkips(SalariedRows(employees, titles)[j], contracts, year, month, r)
    ensures forall j :: 0 <= j < |contracts| ==> HasEntry(r, contracts[j].employee, year, month)
  {
    var rows := SalariedRows(employees, titles);
    var s := SalariedPass(rows, contracts, year, month, ledger).value;
    assert r == HourlyPass(contracts, entries, year, month, period, s);
    SalariedPassCovers(rows, contracts, year, month, ledger);
    HourlyPassCovers(contracts, entries, year, month, period, s);
    forall j | 0 <= j < |rows| && !HasKey(contracts, ContractKey, rows[j].0.no)
      ensures HasEntry(r, rows[j].0.no, year, month)
    {
      HasKeyExtended(s, r, PeriodKey, (rows[j].0.no, year, month));
    }
  }

  /** A row a run adds is the SALARY row of a joined employee with a salary or the HOURLY row of a contract. */
  predicate IsPayRow(x: PayrollEntry, employees: seq<Employee>, titles: seq<EmployeeTitle>,
                     contracts: seq<ProjectEmployee>, entries: seq<TimeEntry>, year: int, month: int, period: Period) {
    || (x.rateType == Salary && IsSalaryRowOf(x, SalariedRows(employees, titles), year, month))
    || (x.rateType == Hourly && IsHourlyRowOf(x, contracts, entries, year, month, period))
  }

  /** Each row a run adds is a pay row; the existing rows are kept as they were. */
  lemma PassesAddPayRows(ledger: seq<PayrollEntry>, employees: seq<Employee>, titles: seq<EmployeeTitle>,
                         contracts: seq<ProjectEmployee>, entries: seq<TimeEntry>, year: int, month: int, period: Period,
                         r: seq<PayrollEntry>)
    requires Passes(ledger, employees, titles, contracts, entries, year, month, period) == Success(r)
    ensures ledger <= r
    ensures forall k :: |ledger| <= k < |r| ==> IsPayRow(r[k], employees, titles, contracts, entries, year, month, period)
  {
    var rows := SalariedRows(employees, titles);
    var s := SalariedPass(rows, contracts, year, month, ledger).value;
    assert r == HourlyPass(contracts, entries, year, month, period, s);
    SalariedRowsPaid(rows, contracts, year, month, ledger);
    HourlyRowsPaid(contracts, entries, year, month, period, s);
    forall k | |ledger| <= k < |r| ensures IsPayRow(r[k], employees, titles, contracts, entries, year, month, period) {
      if k < |s| {
        assert r[k] == s[k];
        assert s[k].rateType == Salary && IsSalaryRowOf(s[k], rows, year, month);
      } else {
        assert r[k].rateType == Hourly && IsHourlyRowOf(r[k], contracts, entries, year, month, period);
      }
    }
  }

  /** Running the same month again over the result adds no row and succeeds. */
  lemma PassesIdempotent(ledger: seq<PayrollEntry>, employees: seq<Employee>, titles: seq<EmployeeTitle>,
                         contracts: seq<ProjectEmployee>, entries: seq<TimeEntry>, year: int, month: int, period: Period,
                         r: seq<PayrollEntry>)
    requires Passes(ledger, employees, titles, contracts, entries, year, month, period) == Success(r)
    ensures Passes(r, employees, titles, contracts, entries, year, month, period) == Success(r)
  {
    var rows := SalariedRows(employees, titles);
    PassesCover(ledger, employees, titles, contracts, entries, year, month, period, r);
    SalariedPassSkipsAll(rows, contracts, year, month, r);
    HourlyPassSkipsAll(contracts, entries, year, month, period, r);
  }

  /**
   * With employee numbers unique, a run fails exactly when the salaried pass reaches a null
   * salary: an employee joined to a title whose salary is null, with no hourly contract and no
   * row for the month.
   */
  lemma PassesFailure(ledger: seq<PayrollEntry>, employees: seq<Employee>, titles: seq<EmployeeTitle>,
                      contracts: seq<ProjectEmployee>, entries: seq<TimeEntry>, year: int, month: int, period: Period)
    requires UniqueKeys(employees, EmployeeKey)
    ensures Passes(ledger, employees, titles, contracts, entries, year, month, period).Failure?
            <==> exists j :: NullSalaryReached(SalariedRows(employees, titles), contracts, year, month, ledger, j)
  {
    var rows := SalariedRows(employees, titles);
    var failed := SalariedPass(rows, contracts, year, month, ledger).Failure?;
    assert Passes(ledger, employees, titles, contracts, entries, year, month, period).Failure? <==> failed;
    if failed {
      SalariedFailureCause(rows, contracts, year, month, ledger);
      var j :| NullSalaryReached(rows, contracts, year, month, ledger, j);
      assert NullSalaryReached(SalariedRows(employees, titles), contracts, year, month, ledger, j);
      assert exists i :: NullSalaryReached(SalariedRows(employees, titles), contracts, year, month, ledger, i);
      assert Passes(ledger, employees, titles, contracts, entries, year, month, period).Failure?;
    } else {
      SalariedRowsDistinct(employees, titles);
      forall j | 0 <= j < |rows| ensures !NullSalaryReached(rows, contracts, year, month, ledger, j) {
        if NullSalaryReached(rows, contracts, year, month, ledger, j) {
          NullSalaryFails(rows, contracts, year, month, ledger, j);
        }
      }
    }
  }

  /** A second run for the same month over the first run's result adds nothing. */
  lemma RunTwiceAddsNothing(ledger: seq<PayrollEntry>, employees: seq<Employee>, titles: seq<EmployeeTitle>,
                            contracts: seq<ProjectEmployee>, entries: seq<TimeEntry>, p: Parsers,
                            yearText: string, monthText: string)
    requires RunPayroll(ledger, employees, titles, contracts, entries, p, yearText, monthText).Success?
    ensures var once := RunPayroll(ledger, employees, titles, contracts, entries, p, yearText, monthText).value;
            RunPayroll(once, employees, titles, contracts, entries, p, yearText, monthText) == Success(once)
  {
    var year, month := p.toInt(yearText).value, p.toInt(monthText).value;
    var once := RunPayroll(ledger, employees, titles, contracts, entries, p, yearText, monthText).value;
    PassesIdempotent(ledger, employees, titles, contracts, entries, year, month, PayPeriod(year, month).value, once);
  }

  /**
   * The two loops of run_payroll: the rows each adds to the session, and `created`. The
   * existence checks see the rows added earlier in the same run.
   */
  method StagePasses(ledger: seq<PayrollEntry>, employees: seq<Employee>, titles: seq<EmployeeTitle>,
                     contracts: seq<ProjectEmployee>, entries: seq<TimeEntry>, year: int, month: int, period: Period)
    returns (r: Result<seq<PayrollEntry>>, created: nat)
    ensures r == Passes(ledger, employees, titles, contracts, entries, year, month, period)
    ensures r.Success? ==> created == |r.value| - |ledger|
  {
    var rows := SalariedRows(employees, titles);
    var session := ledger;
    created := 0;
    var i := 0;
    while i < |rows|
      invariant 0 <= i <= |rows|
      invariant ledger <= session && created == |session| - |ledger|
      invariant SalariedPass(rows[i..], contracts, year, month, session) == SalariedPass(rows, contracts, year, month, ledger)
    {
      var e, t := rows[i].0, rows[i].1;
      assert rows[i..][1..] == rows[i + 1..];
      if Lookup(contracts, ContractKey, e.no).Some? || Lookup(session, PeriodKey, (e.no, year, month)).Some? {
      } else if t.salary.None? {
        r := Failure(Raised(InvalidOperation));
        return;
      } else {
        session := session + [SalaryEntry(e.no, year, month, t.salary.value)];
        created := created + 1;
      }
      i := i + 1;
    }
    var salaried := session;
    var j := 0;
    while j < |contracts|
      invariant 0 <= j <= |contracts|
      invariant ledger <= session && created == |session| - |ledger|
      invariant HourlyPass(contracts[j..], entries, year, month, period, session)
                == HourlyPass(contracts, entries, year, month, period, salaried)
    {
      var c := contracts[j];
      assert contracts[j..][1..] == contracts[j + 1..];
      if Lookup(session, PeriodKey, (c.employee, year, month)).None? {
        session := session + [HourlyEntry(c, year, month, HoursIn(entries, c.employee, period))];
        created := created + 1;
      }
      j := j + 1;
    }
    r := Success(session);
  }

  /** The PayrollHistory table. One row per (employee, year, month) is kept by the runs, not by a key. */
  class PayrollLedger {
    var rows: seq<PayrollEntry>

    constructor ()
      ensures rows == []
    {
      rows := [];
    }

    /**
     * run_payroll (POST): on success the staged rows are committed and the number created
     * returned; on any failure nothing is written.
     */
    method Run(employees: seq<Employee>, titles: seq<EmployeeTitle>, contracts: seq<ProjectEmployee>,
               entries: seq<TimeEntry>, p: Parsers, yearText: string, monthText: string, commitOk: bool)
      returns (r: Result<nat>)
      modifies this
      ensures var run := RunPayroll(old(rows), employees, titles, contracts, entries, p, yearText, monthText);
              && (run.Failure? ==> r == Failure(run.error) && rows == old(rows))
              && (run.Success? && !commitOk ==> r == Failure(Raised(CommitError)) && rows == old(rows))
              && (run.Success? && commitOk ==> rows == run.value && r == Success(|rows| - |old(rows)|))
      ensures UniqueKeys(old(rows), PeriodKey) ==> UniqueKeys(rows, PeriodKey)
    {
      if yearText == "" || monthText == "" {
        return Failure(Rejected(RequiredMessage));
      }
      var year, month;
      match (p.toInt(yearText), p.toInt(monthText)) {
        case (Some(y), Some(m)) =>
          year, month := y, m;
        case _ =>
          return Failure(Raised(ValueError));
      }
      var period := PayPeriod(year, month);
      if period.None? {
        return Failure(Raised(ValueError));
      }
      var staged, created := StagePasses(rows, employees, titles, contracts, entries, year, month, period.value);
      if staged.Failure? {
        return Failure(staged.error);
      }
      if !commitOk {
        return Failure(Raised(CommitError));
      }
      rows := staged.value;
      r := Success(created);
    }
  }

  /** `if year and month`: the history is filtered only when both are given and neither is 0. */
  predicate Filtering(year: Option<int>, month: Option<int>) {
    year.Some? && month.Some? && year.value != 0 && month.value != 0
  }

  predicate Shown(x: PayrollEntry, year: Option<int>, month: Option<int>) {
    Filtering(year, month) ==> x.year == year.value && x.month == month.value
  }

  /** The history rows the filter keeps, each joined to its employee, in table order. */
  function Selected(ledger: seq<PayrollEntry>, employees: seq<Employee>, year: Option<int>, month: Option<int>)
    : (r: seq<(PayrollEntry, Employee)>)
    ensures forall x :: x in r <==> x.0 in ledger && Shown(x.0, year, month)
                                    && Lookup(employees, EmployeeKey, x.0.employee) == Some(x.1)
    ensures |r| <= |ledger|
    ensures forall x :: multiset(r)[x] <= multiset(ledger)[x.0]
  {
    if ledger == [] then []
    else
      var x := ledger[0];
      assert forall y :: y in ledger <==> y == x || y in ledger[1..];
      var here := match Lookup(employees, EmployeeKey, x.employee)
        case Some(e) => if Shown(x, year, month) then [(x, e)] else []
        case None => [];
      var rest := Selected(ledger[1..], employees, year, month);
      assert multiset(ledger) == multiset{x} + multiset(ledger[1..]) by {
        assert ledger == [x] + ledger[1..];
      }
      assert forall y :: multiset(here)[y] <= multiset{x}[y.0];
      assert multiset(here + rest) == multiset(here) + multiset(rest);
      here + rest
  }

  /** A name as its code points, compared like the store's binary collation. */
  function Codes(name: string): (c: seq<int>)
    ensures |c| == |name| && forall i :: 0 <= i < |name| ==> c[i] == name[i] as int
  {
    seq(|name|, i requires 0 <= i < |name| => name[i] as int)
  }

  /** `ORDER BY Pay_Year DESC, Pay_Month DESC, Employee_Name`. */
  function HistoryOrder(x: (PayrollEntry, Employee)): seq<int> {
    [-x.0.year, -x.0.month] + Codes(x.1.name)
  }

  lemma HistoryOrderMeaning(a: (PayrollEntry, Employee), b: (PayrollEntry, Employee))
    requires LexLe(HistoryOrder(a), HistoryOrder(b))
    ensures a.0.year >= b.0.year
    ensures a.0.year == b.0.year ==> a.0.month >= b.0.month
    ensures a.0.year == b.0.year && a.0.month == b.0.month ==> LexLe(Codes(a.1.name), Codes(b.1.name))
  {
    var ka, kb := HistoryOrder(a), HistoryOrder(b);
    LexLeHead(ka, kb);
    if a.0.year == b.0.year {
      LexLeHead(ka[1..], kb[1..]);
      if a.0.month == b.0.month {
        var prefix := [-a.0.year, -a.0.month];
        assert ka == prefix + Codes(a.1.name) && kb == prefix + Codes(b.1.name);
        LexLeAfterCommonPrefix(prefix, Codes(a.1.name), Codes(b.1.name));
      }
    }
  }

  /** history: the selected rows, newest month first, then by employee name. */
  function History(ledger: seq<PayrollEntry>, employees: seq<Employee>, year: Option<int>, month: Option<int>)
    : (r: seq<(PayrollEntry, Employee)>)
    ensures multiset(r) == multiset(Selected(ledger, employees, year, month))
    ensures forall x :: x in r ==> x.0 in ledger && Shown(x.0, year, month)
    ensures forall i, j :: 0 <= i < j < |r| ==> r[i].0.year >= r[j].0.year
    ensures forall i, j :: 0 <= i < j < |r| && r[i].0.year == r[j].0.year ==> r[i].0.month >= r[j].0.month
    ensures forall i, j :: 0 <= i < j < |r| && r[i].0.year == r[j].0.year && r[i].0.month == r[j].0.month
                           ==> LexLe(Codes(r[i].1.name), Codes(r[j].1.name))
  {
    var sorted := SortBy(Selected(ledger, employees, year, month), HistoryOrder);
    assert forall x :: x in sorted ==> x in Selected(ledger, employees, year, month) by {
      forall x | x in sorted ensures x in Selected(ledger, employees, year, month) {
        assert x in multiset(sorted);
      }
    }
    forall i, j | 0 <= i < j < |sorted|
      ensures sorted[i].0.year >= sorted[j].0.year
      ensures sorted[i].0.year == sorted[j].0.year ==> sorted[i].0.month >= sorted[j].0.month
      ensures sorted[i].0.year == sorted[j].0.year && sorted[i].0.month == sorted[j].0.month
              ==> LexLe(Codes(sorted[i].1.name), Codes(sorted[j].1.name))
    {
      HistoryOrderMeaning(sorted[i], sorted[j]);
    }
    sorted
  }
}
