/** routes/project_management/project_stats.py: the figures of a project's statistics page. */
module ProjectStats {
  import opened Wrappers
  import opened Forms
  import opened Tables
  import opened Schema
  import MilestoneRoutes

  datatype Summary = Summary(
    teamCount: nat,
    totalHours: int,
    totalMilestones: nat,
    completedMilestones: nat,
    remainingMilestones: int)

  /** `count(Works_On.Employee_No)` over the project's Works_On rows. */
  function TeamCount(ws: seq<WorksOn>, p: int): (n: nat)
    ensures n <= |ws|
    ensures n == 0 <==> forall i :: 0 <= i < |ws| ==> ws[i].project != p
  {
    if ws == [] then 0
    else
      assert forall i :: 1 <= i < |ws| ==> ws[1..][i - 1] == ws[i];
      (if ws[0].project == p then 1 else 0) + TeamCount(ws[1..], p)
  }

  /** `coalesce(sum(TimeEntry.Hours), 0)` over the project's entries, in hundredths of an hour. */
  function TotalHours(entries: seq<TimeEntry>, p: int): (h: int)
    ensures (forall i :: 0 <= i < |entries| ==> entries[i].project != p) ==> h == 0
  {
    if entries == [] then 0
    else
      assert forall i :: 1 <= i < |entries| ==> entries[1..][i - 1] == entries[i];
      (if entries[0].project == p then entries[0].hours else 0) + TotalHours(entries[1..], p)
  }

  /** `count(Milestone_ID)` over the project's milestones with the given status, or all of them. */
  function MilestoneCount(ms: seq<Milestone>, p: int, status: Option<string>): (n: nat)
    ensures n <= |ms|
    ensures (forall i :: 0 <= i < |ms| ==> ms[i].project != p) ==> n == 0
  {
    if ms == [] then 0
    else
      assert forall i :: 1 <= i < |ms| ==> ms[1..][i - 1] == ms[i];
      var here := ms[0].project == p && (status.None? || ms[0].status == status.value);
      (if here then 1 else 0) + MilestoneCount(ms[1..], p, status)
  }

  /** stats: NotFound for a missing project, otherwise the five figures. */
  function Stats(projects: seq<Project>, ws: seq<WorksOn>, entries: seq<TimeEntry>, ms: seq<Milestone>, p: int)
    : (r: Result<Summary>)
    ensures r.Failure? <==> !HasKey(projects, ProjectKey, p)
    ensures r.Failure? ==> r.error == NotFound
    ensures r.Success? ==> r.value.teamCount == TeamCount(ws, p) && r.value.totalHours == TotalHours(entries, p)
    ensures r.Success? ==> r.value.totalMilestones == |MilestoneRoutes.OfProject(ms, p)|
    ensures r.Success? ==> 0 <= r.value.remainingMilestones <= r.value.totalMilestones
    ensures r.Success? ==> r.value.completedMilestones == |StatusIndices(ms, p, MilestoneRoutes.CompletedStatus)|
    ensures r.Success? ==> r.value.completedMilestones + r.value.remainingMilestones == r.value.totalMilestones
  {
    if Lookup(projects, ProjectKey, p).None? then Failure(NotFound)
    else
      var total := MilestoneCount(ms, p, None);
      var completed := MilestoneCount(ms, p, Some(MilestoneRoutes.CompletedStatus));
      AllMilestonesOfProject(ms, p);
      StatusCountAtMostTotal(ms, p, MilestoneRoutes.CompletedStatus);
      StatusCountIsIndices(ms, p, MilestoneRoutes.CompletedStatus);
      Success(Summary(TeamCount(ws, p), TotalHours(entries, p), total, completed, total - completed))
  }

  /** The milestone total is the size of the list page's milestone list. */
  lemma {:induction false} AllMilestonesOfProject(ms: seq<Milestone>, p: int)
    ensures MilestoneCount(ms, p, None) == |MilestoneRoutes.OfProject(ms, p)|
  {
    if ms != [] {
      AllMilestonesOfProject(ms[1..], p);
    }
  }

  /** A status count never exceeds the project's milestone total. */
  lemma {:induction false} StatusCountAtMostTotal(ms: seq<Milestone>, p: int, status: string)
    ensures MilestoneCount(ms, p, Some(status)) <= MilestoneCount(ms, p, None)
  {
    if ms != [] {
      StatusCountAtMostTotal(ms[1..], p, status);
    }
  }

  /** The positions of the project's milestones whose status is s: a reference count. */
  ghost function StatusIndices(ms: seq<Milestone>, p: int, s: string): set<int> {
    set i | 0 <= i < |ms| && ms[i].project == p && ms[i].status == s
  }

  /** One more milestone adds one to the counts it matches and nothing to the others. */
  lemma {:induction false} MilestoneCountAppend(ms: seq<Milestone>, m: Milestone, p: int, status: Option<string>)
    ensures MilestoneCount(ms + [m], p, status)
            == MilestoneCount(ms, p, status) + (if m.project == p && (status.None? || m.status == status.value) then 1 else 0)
  {
    if ms != [] {
      assert (ms + [m])[1..] == ms[1..] + [m];
      MilestoneCountAppend(ms[1..], m, p, status);
    }
  }

  /** The status count is the number of the project's milestones with that status. */
  lemma {:induction false} StatusCountIsIndices(ms: seq<Milestone>, p: int, s: string)
    ensures MilestoneCount(ms, p, Some(s)) == |StatusIndices(ms, p, s)|
  {
    if ms != [] {
      var k := |ms| - 1;
      var init := ms[..k];
      assert ms == init + [ms[k]];
      StatusCountIsIndices(init, p, s);
      MilestoneCountAppend(init, ms[k], p, Some(s));
      var here: set<int> := if ms[k].project == p && ms[k].status == s then {k} else {};
      assert StatusIndices(ms, p, s) == StatusIndices(init, p, s) + here;
      assert k !in StatusIndices(init, p, s);
    }
  }

  /** The employees the project's Works_On rows name. */
  ghost function TeamOf(ws: seq<WorksOn>, p: int): set<int> {
    set w | w in ws && w.project == p :: w.employee
  }

  lemma TeamOfCons(ws: seq<WorksOn>, p: int)
    requires ws != []
    ensures TeamOf(ws, p) == (if ws[0].project == p then {ws[0].employee} else {}) + TeamOf(ws[1..], p)
  {
    assert forall w :: w in ws <==> w == ws[0] || w in ws[1..] by {
      assert ws == [ws[0]] + ws[1..];
    }
  }

  /** Under unique pair keys the first row's employee appears in no later row of the same project. */
  lemma FirstEmployeeNotLater(ws: seq<WorksOn>, p: int)
    requires ws != [] && UniqueKeys(ws, WorksOnKey) && ws[0].project == p
    ensures ws[0].employee !in TeamOf(ws[1..], p)
  {
    forall j | 0 <= j < |ws| - 1 && ws[1..][j].project == p
      ensures ws[1..][j].employee != ws[0].employee
    {
      assert ws[1..][j] == ws[j + 1];
      assert Keys(ws, WorksOnKey)[0] != Keys(ws, WorksOnKey)[j + 1];
    }
  }

  /**
   * With Works_On keyed by (employee, project), the team count is the number of distinct
   * employees assigned to the project.
   */
  lemma {:induction false} TeamCountIsDistinctEmployees(ws: seq<WorksOn>, p: int)
    requires UniqueKeys(ws, WorksOnKey)
    ensures TeamCount(ws, p) == |TeamOf(ws, p)|
  {
    if ws != [] {
      assert Keys(ws[1..], WorksOnKey) == Keys(ws, WorksOnKey)[1..];
      TeamCountIsDistinctEmployees(ws[1..], p);
      TeamOfCons(ws, p);
      if ws[0].project == p {
        FirstEmployeeNotLater(ws, p);
      }
    }
  }

  /** Logging one more entry adds its hours to its own project's total and to no other. */
  lemma {:induction false} TotalHoursAppend(entries: seq<TimeEntry>, t: TimeEntry, p: int)
    ensures TotalHours(entries + [t], p) == TotalHours(entries, p) + (if t.project == p then t.hours else 0)
  {
    if entries != [] {
      assert (entries + [t])[1..] == entries[1..] + [t];
      TotalHoursAppend(entries[1..], t, p);
    }
  }

  /** Hours are never negative in practice; when they are not, neither is a total. */
  lemma {:induction false} TotalHoursNonNegative(entries: seq<TimeEntry>, p: int)
    requires forall i :: 0 <= i < |entries| ==> entries[i].hours >= 0
    ensures TotalHours(entries, p) >= 0
  {
    if entries != [] {
      TotalHoursNonNegative(entries[1..], p);
    }
  }

  /** A project with no assignments, entries or milestones has all-zero figures, not an error. */
  lemma EmptyProject(projects: seq<Project>, ws: seq<WorksOn>, entries: seq<TimeEntry>, ms: seq<Milestone>, p: int)
    requires HasKey(projects, ProjectKey, p)
    requires forall i :: 0 <= i < |ws| ==> ws[i].project != p
    requires forall i :: 0 <= i < |entries| ==> entries[i].project != p
    requires forall i :: 0 <= i < |ms| ==> ms[i].project != p
    ensures Stats(projects, ws, entries, ms, p) == Success(Summary(0, 0, 0, 0, 0))
  {
  }
}
