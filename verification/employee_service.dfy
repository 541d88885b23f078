/**
 * The read side: an employee's balance, the employee dashboard and the admin
 * dashboard, each a set of filter / order / take / count queries over the
 * store. `today` is the current day number.
 */
module EmployeeService {
  import opened Results
  import opened Models
  import opened Queries

  /** An employee's balance as returned to the caller. */
  datatype BalanceView = BalanceView(employeeId: int, balance: LeaveBalance)

  /** `GetLeaveBalance`: the employee's four counters, or BalanceNotFound. */
  function GetLeaveBalance(st: Store, employeeId: int): (r: Result<BalanceView, ServiceError>)
    ensures r.Failure? <==> employeeId !in st.balances
    ensures r.Failure? ==> r.error == BalanceNotFound
    ensures r.Success? ==> r.value.employeeId == employeeId
    ensures r.Success? ==> forall t :: r.value.balance.Available(t) == st.balances[employeeId].Available(t)
  {
    if employeeId in st.balances then Success(BalanceView(employeeId, st.balances[employeeId]))
    else Failure(BalanceNotFound)
  }

  datatype EmployeeDashboard = EmployeeDashboard(
    balance: Option<BalanceView>,
    upcomingLeaves: seq<LeaveView>,
    recentRequests: seq<LeaveView>,
    pendingCount: nat,
    approvedCount: nat,
    rejectedCount: nat)

  /** The employee's Approved requests that start today or later. */
  function Upcoming(employeeId: int, today: int): Criterion {
    Both(OfEmployee(employeeId), Both(HasStatus(Approved), StartsOnOrAfter(today)))
  }

  lemma UpcomingMeans(employeeId: int, today: int, q: LeaveRequest)
    ensures Matches(Upcoming(employeeId, today), q) <==>
              q.employeeId == employeeId && q.status == Approved && q.startDate >= today
  {
    assert Matches(Both(HasStatus(Approved), StartsOnOrAfter(today)), q) <==> q.status == Approved && q.startDate >= today;
  }

  /** The employee's requests with status `s`. */
  function WithStatus(employeeId: int, s: Status): Criterion {
    Both(OfEmployee(employeeId), HasStatus(s))
  }

  /** A page of at most `n` requests meeting `c`, ordered by `k`, as views. */
  function Page(st: Store, c: Criterion, k: SortKey, d: Direction, n: nat): (r: seq<LeaveView>)
    ensures SelectsFirst(RequestsOf(r), st.requests, c, k, d, n)
    ensures forall i :: 0 <= i < |r| ==> Matches(c, r[i].request)
    ensures Joined(st, r)
  {
    var page := TopN(st.requests, c, k, d, n);
    var views := ViewsOf(st, page);
    assert RequestsOf(views) == page;
    views
  }

  /** The employee's upcoming page: up to five of their Approved requests
      starting today or later, earliest start first. */
  function UpcomingPage(st: Store, employeeId: int, today: int): (r: seq<LeaveView>)
    ensures SelectsFirst(RequestsOf(r), st.requests, Upcoming(employeeId, today), ByStart, Ascending, 5)
    ensures forall i :: 0 <= i < |r| ==>
              var q := r[i].request;
              q.employeeId == employeeId && q.status == Approved && q.startDate >= today
    ensures Joined(st, r)
  {
    var page := Page(st, Upcoming(employeeId, today), ByStart, Ascending, 5);
    forall i | 0 <= i < |page|
      ensures page[i].request.employeeId == employeeId && page[i].request.status == Approved
              && page[i].request.startDate >= today
    {
      UpcomingMeans(employeeId, today, page[i].request);
    }
    page
  }

  /** The employee's Pending, Approved and Rejected counts, which together
      cover all of the employee's requests. */
  function StatusCounts(st: Store, employeeId: int): (r: (nat, nat, nat))
    ensures r.0 == CountWhere(st.requests, WithStatus(employeeId, Pending))
    ensures r.1 == CountWhere(st.requests, WithStatus(employeeId, Approved))
    ensures r.2 == CountWhere(st.requests, WithStatus(employeeId, Rejected))
    ensures r.0 + r.1 + r.2 == CountWhere(st.requests, OfEmployee(employeeId))
  {
    CountByStatus(st.requests, OfEmployee(employeeId));
    (CountWhere(st.requests, WithStatus(employeeId, Pending)),
     CountWhere(st.requests, WithStatus(employeeId, Approved)),
     CountWhere(st.requests, WithStatus(employeeId, Rejected)))
  }

  /** `GetEmployeeDashboard`. A missing balance does not fail the dashboard:
      the balance part is simply absent. */
  function GetEmployeeDashboard(st: Store, employeeId: int, today: int): (r: EmployeeDashboard)
    ensures r.balance.None? <==> employeeId !in st.balances
    ensures r.balance.Some? ==> r.balance.value == BalanceView(employeeId, st.balances[employeeId])
    // Up to five of the employee's Approved requests starting today or later, earliest start first.
    ensures SelectsFirst(RequestsOf(r.upcomingLeaves), st.requests, Upcoming(employeeId, today), ByStart, Ascending, 5)
    // Up to five of the employee's requests, latest submission first.
    ensures SelectsFirst(RequestsOf(r.recentRequests), st.requests, OfEmployee(employeeId), BySubmitted, Descending, 5)
    // Each row of both lists carries its employee's name and day count.
    ensures Joined(st, r.upcomingLeaves) && Joined(st, r.recentRequests)
    ensures r.pendingCount == CountWhere(st.requests, WithStatus(employeeId, Pending))
    ensures r.approvedCount == CountWhere(st.requests, WithStatus(employeeId, Approved))
    ensures r.rejectedCount == CountWhere(st.requests, WithStatus(employeeId, Rejected))
    // The three counts cover all of the employee's requests.
    ensures r.pendingCount + r.approvedCount + r.rejectedCount == CountWhere(st.requests, OfEmployee(employeeId))
  {
    var balance := if employeeId in st.balances then Some(BalanceView(employeeId, st.balances[employeeId])) else None;
    var counts := StatusCounts(st, employeeId);
    EmployeeDashboard(
      balance,
      UpcomingPage(st, employeeId, today),
      Page(st, OfEmployee(employeeId), BySubmitted, Descending, 5),
      counts.0, counts.1, counts.2)
  }

  datatype AdminDashboard = AdminDashboard(
    totalEmployees: nat,
    pendingCount: nat,
    employeesOnLeaveToday: nat,
    totalApprovedLeaves: nat,
    leaveTypeStats: Tally,
    pendingRequests: seq<LeaveView>,
    recentApprovals: seq<LeaveView>)

  /** Approved requests whose range contains `today`. */
  function OnLeave(today: int): Criterion {
    Both(HasStatus(Approved), CoversDay(today))
  }

  /** Approved requests grouped by category: one entry per category, each
      counting that category's Approved requests, adding up to the Approved
      total. */
  function ApprovedByType(st: Store): (g: Tally)
    ensures DistinctKeys(g)
    ensures forall i :: 0 <= i < |g| ==> g[i].1 > 0
    ensures forall t :: CountOf(g, t) == CountWhere(st.requests, Both(HasStatus(Approved), OfType(t)))
    ensures SumCounts(g) == CountWhere(st.requests, HasStatus(Approved))
  {
    var approved := Where(st.requests, HasStatus(Approved));
    var stats := GroupCount(TypesOf(approved));
    forall t ensures CountOf(stats, t) == CountWhere(st.requests, Both(HasStatus(Approved), OfType(t))) {
      TypesOfWhere(st.requests, HasStatus(Approved), t);
    }
    WhereLength(st.requests, HasStatus(Approved));
    stats
  }

  /** `GetAdminDashboard`. */
  function GetAdminDashboard(st: Store, today: int): (r: AdminDashboard)
    ensures r.totalEmployees == |st.employees|
    ensures r.pendingCount == CountWhere(st.requests, HasStatus(Pending))
    // Counts Approved requests covering today, not distinct employees.
    ensures r.employeesOnLeaveToday == CountWhere(st.requests, OnLeave(today))
    ensures r.totalApprovedLeaves == CountWhere(st.requests, HasStatus(Approved))
    // One entry per category of Approved leave, counting its Approved requests;
    // the entries add up to the Approved total.
    ensures DistinctKeys(r.leaveTypeStats)
    ensures forall i :: 0 <= i < |r.leaveTypeStats| ==> r.leaveTypeStats[i].1 > 0
    ensures forall t :: CountOf(r.leaveTypeStats, t) == CountWhere(st.requests, Both(HasStatus(Approved), OfType(t)))
    ensures SumCounts(r.leaveTypeStats) == r.totalApprovedLeaves
    // Up to ten Pending requests, oldest submission first.
    ensures SelectsFirst(RequestsOf(r.pendingRequests), st.requests, HasStatus(Pending), BySubmitted, Ascending, 10)
    // Up to ten Approved requests, latest submission first.
    ensures SelectsFirst(RequestsOf(r.recentApprovals), st.requests, HasStatus(Approved), BySubmitted, Descending, 10)
    // Each row of both lists carries its employee's name and day count.
    ensures Joined(st, r.pendingRequests) && Joined(st, r.recentApprovals)
  {
    var stats := ApprovedByType(st);
    var pendingViews := Page(st, HasStatus(Pending), BySubmitted, Ascending, 10);
    var approvalViews := Page(st, HasStatus(Approved), BySubmitted, Descending, 10);
    AdminDashboard(
      |st.employees|,
      CountWhere(st.requests, HasStatus(Pending)),
      CountWhere(st.requests, OnLeave(today)),
      CountWhere(st.requests, HasStatus(Approved)),
      stats,
      pendingViews,
      approvalViews)
  }
}
