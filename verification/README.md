# Employee leave management — a verified model of the leave workflow

This project is a Dafny model of the business logic of an employee leave
management service. Employees register, receive a leave balance of four
per-category counters, and submit leave requests. An administrator approves
or rejects each Pending request. Approval deducts the request's inclusive day
count from the matching counter. Dashboards summarise the request table for
an employee and for the administrator.

The three database tables become one immutable `Store`:

- a sequence of employees;
- a sequence of leave requests;
- a map from employee id to balance;
- the next value of each identity column.

Every state-changing service call is a pure function from a store to a
(response, new store) pair. Every read projection is a pure filter, order,
take and count query over the store. Dates are integer day numbers. The
current day (`today`) and the submission timestamp (`now`) are parameters.

Modules, one per file:

- `Results` (results.dfy): Option, Result and Outcome wrappers.
- `Models` (models.dfy): the records, leave categories, balances, the store and its invariant `Valid`.
- `Queries` (queries.dfy): first-order filter criteria, `Where`, counting, an ordering by key, taking a prefix, top-n pages and grouping by category.
- `LeaveService` (leave_service.dfy): submission, approval, rejection and the request listings.
- `AuthService` (auth_service.dfy): registration and the lookup half of login.
- `EmployeeService` (employee_service.dfy): the balance query and the two dashboards.
- `Workflow` (workflow.dfy): properties across operations. These are invariant preservation, how a status may evolve, and what approval does not check.

Approval (EmployeeLeaveMnagementSys/Services/LeaveService.cs:253-268)
never checks that the employee still has enough days. It also never
re-checks overlap with other Approved leave. As a result, counters can go
negative and Approved ranges of one employee can overlap. The model keeps
both behaviours and proves them (`Workflow.ApprovalIgnoresSufficiency`,
`Workflow.ApprovalIgnoresOverlap`). The store invariant `Valid` deliberately
makes no claim about non-negative counters or disjoint ranges.

A query's ordering is specified as "ordered by the key and a permutation of
the selected rows". A database `ORDER BY` gives no order among equal keys,
so no particular tie order is promised.

## Model

| member | source | states |
|---|---|---|
| Models.ParseLeaveType | EmployeeLeaveMnagementSys/Services/LeaveService.cs:76-83 | only the exact texts Annual, Sick, Casual and Other name a category; any other text is an unrecognised category that keeps its text |
| Models.ParseTypeName | EmployeeLeaveMnagementSys/Services/LeaveService.cs:254-268 | reading back the stored name of a category gives the same category, so submission and approval agree on which counter a request uses |
| Models.LeaveBalance.Deduct | EmployeeLeaveMnagementSys/Services/LeaveService.cs:253-268 | deduction lowers exactly the counter of the request's category by the day count and leaves the other three alone; an unrecognised category changes nothing; no lower bound |
| Models.FindFirst | EmployeeLeaveMnagementSys/Services/AuthService.cs:94 | the first-or-default lookup returns the first position satisfying the condition, or nothing exactly when no position does |
| Models.IndexOfRequest | EmployeeLeaveMnagementSys/Services/LeaveService.cs:220-221 | the lookup finds the first request with the id, or reports that none has it |
| Models.EmployeeName | EmployeeLeaveMnagementSys/Services/LeaveService.cs:138-145 | the joined employee name belongs to an employee with the request's employee id, or is empty when there is none |
| Queries.Where | EmployeeLeaveMnagementSys/Services/EmployeeService.cs:106-108 | a filter keeps every request meeting the criterion, as often as it occurs, and nothing else |
| Queries.WhereLength | EmployeeLeaveMnagementSys/Services/EmployeeService.cs:128-129 | counting the requests meeting a criterion gives the size of the filtered table |
| Queries.SelectsCount | EmployeeLeaveMnagementSys/Services/EmployeeService.cs:128-135 | any list holding exactly the matching requests has the count's length |
| Queries.CountByStatus | EmployeeLeaveMnagementSys/Services/EmployeeService.cs:128-135 | the Pending, Approved and Rejected counts under a criterion add up to the count under that criterion |
| Queries.Insert | EmployeeLeaveMnagementSys/Services/LeaveService.cs:181 | inserting into an ordered list keeps it ordered and adds exactly that element |
| Queries.OrderBy | EmployeeLeaveMnagementSys/Services/LeaveService.cs:181 | ordering gives an ordered permutation of its input |
| Queries.Take | EmployeeLeaveMnagementSys/Services/EmployeeService.cs:88 | taking `n` gives the first min(n, length) elements |
| Queries.Query | EmployeeLeaveMnagementSys/Services/LeaveService.cs:178-181 | filter then order yields exactly the matching requests, ordered by the key |
| Queries.TopN | EmployeeLeaveMnagementSys/Services/EmployeeService.cs:82-88 | a page holds min(n, matches) matching requests drawn from the table, in key order, and no matching request left out comes before one shown |
| Queries.PrefixOfSorted | EmployeeLeaveMnagementSys/Services/EmployeeService.cs:87-88 | a prefix of an ordered list is ordered, contained in it, and precedes every element it leaves out |
| Queries.BumpSpec | EmployeeLeaveMnagementSys/Services/EmployeeService.cs:190-191 | adding one occurrence raises that category's count alone by one, keeps one entry per category and raises the total by one |
| Queries.GroupCount | EmployeeLeaveMnagementSys/Services/EmployeeService.cs:188-192 | grouping gives one entry per occurring category, each counting its occurrences, adding up to the number grouped |
| Queries.TypesOfWhere | EmployeeLeaveMnagementSys/Services/EmployeeService.cs:188-191 | among filtered requests, the occurrences of a category equal the count of requests meeting the filter and having that category |
| LeaveService.OverlapClausesMeanIntersection | EmployeeLeaveMnagementSys/Services/LeaveService.cs:47-49 | for non-empty ranges the three overlap clauses hold exactly when the ranges share a day |
| LeaveService.HasOverlap | EmployeeLeaveMnagementSys/Services/LeaveService.cs:45-49 | the overlap query is true exactly when some Approved request of the same employee meets the clauses |
| LeaveService.HasOverlapMeansSharedDay | EmployeeLeaveMnagementSys/Services/LeaveService.cs:45-49 | on a valid store a range is blocked exactly when one of the employee's Approved requests shares a day with it |
| LeaveService.NonApprovedNeverBlocks | EmployeeLeaveMnagementSys/Services/LeaveService.cs:46 | adding a Pending or Rejected request never changes the overlap answer |
| LeaveService.ApplyLeave | EmployeeLeaveMnagementSys/Services/LeaveService.cs:21-118 | checks run in order (past start, end before start, overlap, missing balance, too few days) and the first failure decides the error and changes nothing; success appends one Pending request with the submitted fields and timestamp, returns its id and leaves balances alone |
| LeaveService.SubmissionIsCoveredButNotReserved | EmployeeLeaveMnagementSys/Services/LeaveService.cs:62-109 | an accepted request covers at least one day, names a recognised category with enough days left, and reserves nothing |
| LeaveService.UnknownTypeNeverSubmits | EmployeeLeaveMnagementSys/Services/LeaveService.cs:76-94 | a request of an unrecognised category always fails and changes nothing |
| LeaveService.ApproveLeave | EmployeeLeaveMnagementSys/Services/LeaveService.cs:216-280 | a missing id fails as not found and a non-Pending request as already processed; without a balance record it fails; otherwise the request becomes Approved with the remark, the matching counter loses the day count and nothing else changes; every failure changes nothing |
| LeaveService.RejectLeave | EmployeeLeaveMnagementSys/Services/LeaveService.cs:292-322 | a missing id or non-Pending request fails and changes nothing; otherwise only that request's status becomes Rejected and its remark is set; balances never change |
| LeaveService.GetAllPendingLeaves | EmployeeLeaveMnagementSys/Services/LeaveService.cs:174-203 | exactly the Pending requests, oldest submission first, each with its day count and employee name |
| LeaveService.GetLeaveHistory | EmployeeLeaveMnagementSys/Services/LeaveService.cs:335-363 | every request exactly once, newest submission first, each with its employee's name and day count |
| LeaveService.GetEmployeeLeaveRequests | EmployeeLeaveMnagementSys/Services/LeaveService.cs:133-162 | as written: every request of every employee, newest submission first, each with its employee's name and day count |
| LeaveService.EmployeeListingShowsOthers | EmployeeLeaveMnagementSys/Services/LeaveService.cs:139 | the listing for one employee contains another employee's request |
| LeaveService.GetOwnLeaveRequests | EmployeeLeaveMnagementSys/Services/LeaveService.cs:137-156 | corrected: exactly the employee's own requests, newest submission first, each with its employee's name and day count |
| AuthService.Register | EmployeeLeaveMnagementSys/Services/AuthService.cs:25-77 | fails, changing nothing, exactly when the email is in use; otherwise appends the employee with the hashed password and role Employee, gives them the 20/10/5/0 balance, and returns id, name, email and role |
| AuthService.RegisterIgnoresRequestedRole | EmployeeLeaveMnagementSys/Services/AuthService.cs:41-49 | the requested role has no effect on the response or the store; the stored role is Employee |
| AuthService.RegisterCreatesOneBalance | EmployeeLeaveMnagementSys/Services/AuthService.cs:54-65 | on a valid store registration creates exactly one new balance, for an id that had none, and keeps every other |
| AuthService.Login | EmployeeLeaveMnagementSys/Services/AuthService.cs:89-124 | an unknown email fails; for the first employee with the email, a failed password check fails and a passing one returns a token with that employee's id, name and email |
| AuthService.LoginSucceedsIffCredentialsMatch | EmployeeLeaveMnagementSys/Services/AuthService.cs:94-112 | with unique emails, login succeeds exactly when some employee has the email and the password verifies against their hash |
| EmployeeService.GetLeaveBalance | EmployeeLeaveMnagementSys/Services/EmployeeService.cs:19-50 | fails exactly when the employee has no balance record; otherwise returns that record's counters unchanged |
| EmployeeService.UpcomingMeans | EmployeeLeaveMnagementSys/Services/EmployeeService.cs:84-86 | the upcoming filter keeps exactly the employee's Approved requests starting today or later |
| EmployeeService.Page | EmployeeLeaveMnagementSys/Services/EmployeeService.cs:106-125 | a dashboard list is a first page of its filter in its order, as response rows with their employee's name and day count |
| EmployeeService.UpcomingPage | EmployeeLeaveMnagementSys/Services/EmployeeService.cs:82-103 | at most five of the employee's Approved requests starting today or later, earliest start first, none left out that starts earlier than one shown, each with its employee's name and day count |
| EmployeeService.StatusCounts | EmployeeLeaveMnagementSys/Services/EmployeeService.cs:128-135 | the three counts are the employee's Pending, Approved and Rejected requests and together cover all of them |
| EmployeeService.GetEmployeeDashboard | EmployeeLeaveMnagementSys/Services/EmployeeService.cs:63-145 | the balance part is absent exactly when there is no record; upcoming and recent pages (five each) are first pages of their filters in their orders; every row of both lists has its employee's name and day count; the counts are per status and sum to all the employee's requests |
| EmployeeService.ApprovedByType | EmployeeLeaveMnagementSys/Services/EmployeeService.cs:187-192 | one positive entry per category of Approved leave, counting its Approved requests, adding up to the Approved total |
| EmployeeService.GetAdminDashboard | EmployeeLeaveMnagementSys/Services/EmployeeService.cs:165-247 | totals of employees, Pending and Approved requests; on-leave-today counts Approved requests covering today, not distinct employees; per-category counts sum to the Approved total; ten oldest Pending and ten newest Approved as first pages, every row with its employee's name and day count |
| Workflow.RegisterPreservesValid | EmployeeLeaveMnagementSys/Data/ApplicationDbContext.cs:21-24 | registration keeps ids and emails unique and one balance per employee |
| Workflow.ApplyLeavePreservesValid | EmployeeLeaveMnagementSys/Services/LeaveService.cs:97-109 | submission keeps the invariant: fresh id, owner with a balance, non-empty range, recognised category |
| Workflow.ApproveAdvances | EmployeeLeaveMnagementSys/Services/LeaveService.cs:270-271 | approval keeps the table's length, changes no two positions, and a changed request was Pending and differs only in status and remark |
| Workflow.RejectAdvances | EmployeeLeaveMnagementSys/Services/LeaveService.cs:314-315 | rejection keeps the table's length, changes no two positions, and a changed request was Pending and differs only in status and remark |
| Workflow.ApplyLeaveAdvances | EmployeeLeaveMnagementSys/Services/LeaveService.cs:108-109 | submission leaves every existing request as it was, at its position |
| Workflow.ApproveLeavePreservesValid | EmployeeLeaveMnagementSys/Services/LeaveService.cs:216-272 | approval keeps the invariant, which says nothing about counters being non-negative |
| Workflow.RejectLeavePreservesValid | EmployeeLeaveMnagementSys/Services/LeaveService.cs:292-316 | rejection keeps the invariant |
| Workflow.TerminalStatusIsStable | EmployeeLeaveMnagementSys/Services/LeaveService.cs:230-237 | deciding an Approved or Rejected request again fails as already processed and changes nothing |
| Workflow.ApproveTwiceDeductsOnce | EmployeeLeaveMnagementSys/Services/LeaveService.cs:230-237 | a second approval of the same request fails and deducts nothing more |
| Workflow.RegisteredEmployeeHasInitialBalance | EmployeeLeaveMnagementSys/Services/EmployeeService.cs:19-50 | after registration the balance query returns the new employee's 20/10/5/0 record |
| Workflow.BalanceShowsApproval | EmployeeLeaveMnagementSys/Services/EmployeeService.cs:19-50 | after an approval the balance query shows the day count gone from the matching counter and every other counter as before |
| Workflow.ApprovalIgnoresSufficiency | EmployeeLeaveMnagementSys/Services/LeaveService.cs:253-268 | a Pending request is approved even when its counter is short, which drives the counter below zero |
| Workflow.ApprovalIgnoresOverlap | EmployeeLeaveMnagementSys/Services/LeaveService.cs:216-272 | two overlapping Pending requests of one employee can both be approved, leaving overlapping Approved leave |
| Workflow.SubmitThenApprove | EmployeeLeaveMnagementSys/Services/LeaveService.cs:85-109 | approving a freshly submitted request succeeds and takes its day count off the counter the submission checked, leaving it non-negative |

## Left out

- Persistence, asynchrony and logging are not modelled: the tables are an in-memory value and saving is the returned store.
- The catch-all failure branches of every service call are not modelled. They answer only to database or runtime exceptions.
- Time of day is not modelled. Dates are whole day numbers, so the truncation of a time span to whole days does not arise.
- Password hashing, password verification and token generation are function parameters with no modelled behaviour.
- Controllers, request-model validation, start-up configuration, DTO classes beyond their fields, and the balance row's own key are not modelled.
- EmployeeService.GetLeaveBalance: the balance view has no total-leaves field. The response DTO declares one (EmployeeLeaveMnagementSys/DTOs/EmployeeDtos.cs:11), but the service never sets it, so it is always 0; the model drops it.
- Cascade deletes are not modelled, because no modelled operation deletes anything.
- The other employee-service queries (profile and related lookups) are not part of this model.
- A missing (null) category text is modelled like any unrecognised text. Its grouping key in the admin statistics is not distinguished.
- Email comparison is exact text equality. Database collation, for example case-insensitive matching, is not modelled.
- Models.LeaveBalance.Deduct: counters are unbounded integers; the 32-bit wrap-around of repeated deductions is not modelled.
- Queries.OrderBy: the order among requests with equal keys is left unspecified, as the database leaves it.
- Queries.GroupCount: the entry order of the statistics dictionary is not part of the contract.
- AuthService.Login: the response role is left unset, as in the code. The two failure messages differ only in letter case and are kept as two errors.
- AuthService.Register: the failure when saving a duplicate email concurrently (the unique index) is not modelled; requests are sequential.
- Registration and submission draw ids from counters that only grow. Database identity gaps are not modelled.

## Findings

| source | as written | input that shows it | evidently intended | confidence | as-written member | corrected member |
|---|---|---|---|---|---|---|
| EmployeeLeaveMnagementSys/Services/LeaveService.cs:139 | the filter compares the parameter with itself, so it keeps every row | a table with one request of employee 2, listed for employee 1, shows that request | keep only the rows whose employee id is the parameter | high (not executed) | LeaveService.EmployeeListingShowsOthers | LeaveService.GetOwnLeaveRequests |
