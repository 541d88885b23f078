/**
 * Properties of the workflow as a whole: the store invariant every
 * state-changing operation keeps, how a request's status may evolve, and
 * what approval does not check.
 */
module Workflow {
  import opened Results
  import opened Models
  import opened LeaveService
  import opened AuthService
  import opened EmployeeService

  /** The store the application starts from satisfies the invariant. */
  lemma EmptyStoreValid()
    ensures Valid(EmptyStore)
  {
  }

  /** The ids of employees after one more is appended. */
  lemma EmployeeIdsAppend(es: seq<Employee>, e: Employee)
    ensures EmployeeIds(es + [e]) == EmployeeIds(es) + {e.id}
  {
    forall x | x in es + [e] ensures x in es || x == e { }
    forall x | x in es ensures x in es + [e] { }
  }

  /** Registration keeps the invariant: the new id is fresh, the new email is
      unused, and the new employee gets the one balance record. */
  lemma RegisterPreservesValid(st: Store, dto: RegisterDto, hashPassword: string -> string)
    requires Valid(st)
    ensures Valid(Register(st, dto, hashPassword).1)
  {
    var (res, st') := Register(st, dto, hashPassword);
    if res.Success? {
      var n := |st.employees|;
      var e := st'.employees[n];
      assert st'.employees == st.employees + [e];
      forall i, j | 0 <= i < j < |st'.employees|
        ensures st'.employees[i].id != st'.employees[j].id && st'.employees[i].email != st'.employees[j].email
      {
        if j == n {
          assert st.employees[i] in st.employees;
        }
      }
      EmployeeIdsAppend(st.employees, e);
    }
  }

  /** A successful submission keeps the invariant: the new request has a fresh
      id, belongs to an employee with a balance, has a non-empty range and a
      recognised category. */
  lemma ApplyLeavePreservesValid(st: Store, employeeId: int, dto: LeaveRequestDto, today: int, now: int)
    requires Valid(st)
    ensures Valid(ApplyLeave(st, employeeId, dto, today, now).1)
  {
    var (res, st') := ApplyLeave(st, employeeId, dto, today, now);
    if res.Success? {
      var n := |st.requests|;
      var q := st'.requests[n];
      assert st'.requests == st.requests + [q];
      SubmissionIsCoveredButNotReserved(st, employeeId, dto, today, now);
      forall i, j | 0 <= i < j < |st'.requests|
        ensures st'.requests[i].id != st'.requests[j].id
      {
        if j == n {
          assert st.requests[i] in st.requests;
        }
      }
      forall r | r in st'.requests
        ensures r.id < st'.nextRequestId && r.employeeId in st'.balances && WellFormedRequest(r)
      {
        if r != q {
          assert r in st.requests;
        }
      }
    }
  }

  /** `b` is `a` after at most one decision: unchanged, or a Pending request
      that became Approved or Rejected with everything but its status and
      remark kept. */
  predicate Advances(a: LeaveRequest, b: LeaveRequest) {
    || b == a
    || (a.status == Pending && b.status != Pending && b == a.(status := b.status, adminRemark := b.adminRemark))
  }

  /** Every request of `st` is still at its position in `st'`, at most one
      decision further on. */
  predicate RequestsAdvance(st: Store, st': Store) {
    && |st.requests| <= |st'.requests|
    && forall k :: 0 <= k < |st.requests| ==> Advances(st.requests[k], st'.requests[k])
  }

  /** Of any two positions of `rs`, at least one holds the same request in `rs'`. */
  predicate AtMostOneChanged(rs: seq<LeaveRequest>, rs': seq<LeaveRequest>)
    requires |rs| <= |rs'|
  {
    forall j, k :: 0 <= j < k < |rs| ==> rs'[j] == rs[j] || rs'[k] == rs[k]
  }

  /** A decision changes only the decided request, and only its status and
      remark; the rest of the row, including its dates and category, stays. */
  lemma DecisionKeepsShape(a: LeaveRequest, b: LeaveRequest)
    requires Advances(a, b)
    ensures b.id == a.id && b.employeeId == a.employeeId && b.leaveType == a.leaveType
    ensures b.startDate == a.startDate && b.endDate == a.endDate && b.dateSubmitted == a.dateSubmitted
    ensures a.status != Pending ==> b == a
  {
  }

  /** The first position holding `id`, when the request exists. */
  lemma FirstPosition(rs: seq<LeaveRequest>, id: int) returns (i: int)
    requires exists k :: 0 <= k < |rs| && rs[k].id == id
    ensures FirstWithId(rs, id, i)
  {
    var r := IndexOfRequest(rs, id);
    i := r.value;
  }

  /** Approval advances only the approved request: the table keeps its
      length and no two positions both change. */
  lemma ApproveAdvances(st: Store, requestId: int, remark: string)
    ensures RequestsAdvance(st, ApproveLeave(st, requestId, remark).1)
    ensures |ApproveLeave(st, requestId, remark).1.requests| == |st.requests|
    ensures AtMostOneChanged(st.requests, ApproveLeave(st, requestId, remark).1.requests)
  {
    var (res, st') := ApproveLeave(st, requestId, remark);
    if res.Pass? {
      var i := FirstPosition(st.requests, requestId);
      forall k | 0 <= k < |st.requests| ensures Advances(st.requests[k], st'.requests[k]) {
        if k == i {
          assert st'.requests[k] == st.requests[k].(status := Approved, adminRemark := Some(remark));
        }
      }
    }
  }

  /** Rejection advances only the rejected request: the table keeps its
      length and no two positions both change. */
  lemma RejectAdvances(st: Store, requestId: int, remark: string)
    ensures RequestsAdvance(st, RejectLeave(st, requestId, remark).1)
    ensures |RejectLeave(st, requestId, remark).1.requests| == |st.requests|
    ensures AtMostOneChanged(st.requests, RejectLeave(st, requestId, remark).1.requests)
  {
    var (res, st') := RejectLeave(st, requestId, remark);
    if res.Pass? {
      var i := FirstPosition(st.requests, requestId);
      forall k | 0 <= k < |st.requests| ensures Advances(st.requests[k], st'.requests[k]) {
        if k == i {
          assert st'.requests[k] == st.requests[k].(status := Rejected, adminRemark := Some(remark));
        }
      }
    }
  }

  /** Submission only appends: every existing request stays as it was. */
  lemma ApplyLeaveAdvances(st: Store, employeeId: int, dto: LeaveRequestDto, today: int, now: int)
    ensures RequestsAdvance(st, ApplyLeave(st, employeeId, dto, today, now).1)
    ensures ApplyLeave(st, employeeId, dto, today, now).1.requests[..|st.requests|] == st.requests
  {
    var st' := ApplyLeave(st, employeeId, dto, today, now).1;
    if st' != st {
      forall k | 0 <= k < |st.requests| ensures st'.requests[k] == st.requests[k] {
        assert st'.requests[..|st.requests|][k] == st.requests[k];
      }
    }
  }

  /** A decision that keeps every row's id, owner, dates and category, and
      the balance keys and counters, keeps the invariant. */
  lemma AdvancePreservesValid(st: Store, st': Store)
    requires Valid(st) && RequestsAdvance(st, st')
    requires |st'.requests| == |st.requests|
    requires st'.employees == st.employees
    requires st'.nextEmployeeId == st.nextEmployeeId && st'.nextRequestId == st.nextRequestId
    requires st'.balances.Keys == st.balances.Keys
    ensures Valid(st')
  {
    forall i, j | 0 <= i < j < |st'.requests| ensures st'.requests[i].id != st'.requests[j].id {
      DecisionKeepsShape(st.requests[i], st'.requests[i]);
      DecisionKeepsShape(st.requests[j], st'.requests[j]);
    }
    forall r | r in st'.requests
      ensures r.id < st'.nextRequestId && r.employeeId in st'.balances && WellFormedRequest(r)
    {
      var k :| 0 <= k < |st'.requests| && st'.requests[k] == r;
      DecisionKeepsShape(st.requests[k], r);
      assert st.requests[k] in st.requests;
    }
  }

  /** Approval keeps the invariant. Note what it does not include: nothing
      says counters stay non-negative or Approved ranges stay disjoint. */
  lemma ApproveLeavePreservesValid(st: Store, requestId: int, remark: string)
    requires Valid(st)
    ensures Valid(ApproveLeave(st, requestId, remark).1)
  {
    var (res, st') := ApproveLeave(st, requestId, remark);
    if res.Pass? {
      var i := FirstPosition(st.requests, requestId);
      ApproveAdvances(st, requestId, remark);
      AdvancePreservesValid(st, st');
    }
  }

  /** Rejection keeps the invariant. */
  lemma RejectLeavePreservesValid(st: Store, requestId: int, remark: string)
    requires Valid(st)
    ensures Valid(RejectLeave(st, requestId, remark).1)
  {
    var (res, st') := RejectLeave(st, requestId, remark);
    if res.Pass? {
      var i := FirstPosition(st.requests, requestId);
      RejectAdvances(st, requestId, remark);
      AdvancePreservesValid(st, st');
    }
  }

  /** In a valid store a request's position is the first holding its id. */
  lemma UniqueIdIsFirst(st: Store, i: int)
    requires Valid(st) && 0 <= i < |st.requests|
    ensures FirstWithId(st.requests, st.requests[i].id, i)
  {
  }

  /** Approved and Rejected are terminal: deciding such a request again
      fails with AlreadyProcessed and changes nothing. */
  lemma TerminalStatusIsStable(st: Store, i: int, remark: string)
    requires Valid(st) && 0 <= i < |st.requests| && st.requests[i].status != Pending
    ensures ApproveLeave(st, st.requests[i].id, remark) == (Fail(AlreadyProcessed), st)
    ensures RejectLeave(st, st.requests[i].id, remark) == (Fail(AlreadyProcessed), st)
  {
    UniqueIdIsFirst(st, i);
  }

  /** Approving the same request a second time deducts nothing: the second
      call finds the request Approved and leaves the store as it is. */
  lemma ApproveTwiceDeductsOnce(st: Store, requestId: int, remark: string, remark2: string)
    requires ApproveLeave(st, requestId, remark).0.Pass?
    ensures var st1 := ApproveLeave(st, requestId, remark).1;
            ApproveLeave(st1, requestId, remark2) == (Fail(AlreadyProcessed), st1)
  {
    var st1 := ApproveLeave(st, requestId, remark).1;
    var i := FirstPosition(st.requests, requestId);
    assert FirstWithId(st1.requests, requestId, i);
  }

  /** Approval never compares the days with what is left: a Pending request
      of a recognised category is approved even when its employee has fewer
      days left than it needs, and the counter then goes negative. */
  lemma ApprovalIgnoresSufficiency(st: Store, i: int, remark: string)
    requires 0 <= i < |st.requests| && FirstWithId(st.requests, st.requests[i].id, i)
    requires st.requests[i].status == Pending
    requires st.requests[i].employeeId in st.balances && !st.requests[i].leaveType.Unknown?
    requires st.balances[st.requests[i].employeeId].Available(st.requests[i].leaveType)
             < Days(st.requests[i].startDate, st.requests[i].endDate)
    ensures var (res, st') := ApproveLeave(st, st.requests[i].id, remark);
            res.Pass? && st'.balances[st.requests[i].employeeId].Available(st.requests[i].leaveType) < 0
  {
  }

  /** Approval never re-checks overlap: two Pending requests of one employee
      whose ranges share a day can both be approved in turn, leaving two
      Approved requests that overlap. */
  lemma ApprovalIgnoresOverlap(st: Store, i: int, j: int, remark: string)
    requires Valid(st) && 0 <= i < |st.requests| && 0 <= j < |st.requests| && i != j
    requires st.requests[i].status == Pending && st.requests[j].status == Pending
    requires st.requests[i].employeeId == st.requests[j].employeeId
    requires st.requests[i].startDate <= st.requests[j].endDate && st.requests[j].startDate <= st.requests[i].endDate
    ensures var (res1, st1) := ApproveLeave(st, st.requests[i].id, remark);
            var (res2, st2) := ApproveLeave(st1, st.requests[j].id, remark);
            && res1.Pass? && res2.Pass?
            && st2.requests[i].status == Approved && st2.requests[j].status == Approved
            && st2.requests[i].employeeId == st2.requests[j].employeeId
            && st2.requests[i].startDate <= st2.requests[j].endDate
            && st2.requests[j].startDate <= st2.requests[i].endDate
  {
    UniqueIdIsFirst(st, i);
    UniqueIdIsFirst(st, j);
    assert st.requests[i].employeeId in st.balances by {
      assert st.requests[i] in st.requests;
    }
    var st1 := ApproveLeave(st, st.requests[i].id, remark).1;
    assert st1.requests[j] == st.requests[j];
    assert FirstWithId(st1.requests, st.requests[j].id, j);
  }

  /** In a valid store a freshly submitted request is the first holding its id. */
  lemma SubmittedIsFirst(st: Store, employeeId: int, dto: LeaveRequestDto, today: int, now: int)
    requires Valid(st)
    requires ApplyLeave(st, employeeId, dto, today, now).0.Success?
    ensures var (res, st1) := ApplyLeave(st, employeeId, dto, today, now);
            FirstWithId(st1.requests, res.value, |st.requests|)
  {
    var (res, st1) := ApplyLeave(st, employeeId, dto, today, now);
    forall k | 0 <= k < |st.requests| ensures st1.requests[k].id != res.value {
      assert st1.requests[k] == st1.requests[..|st.requests|][k];
      assert st.requests[k] in st.requests;
    }
  }

  /** Submitting and then approving the new request succeeds and takes its
      day count off the category's counter, which the submission checked was
      enough, so this path alone leaves the counter non-negative. */
  lemma SubmitThenApprove(st: Store, employeeId: int, dto: LeaveRequestDto, today: int, now: int, remark: string)
    requires Valid(st)
    requires ApplyLeave(st, employeeId, dto, today, now).0.Success?
    ensures var (res, st1) := ApplyLeave(st, employeeId, dto, today, now);
            var (res2, st2) := ApproveLeave(st1, res.value, remark);
            var t := ParseLeaveType(dto.leaveType);
            && res2.Pass?
            && st2.balances[employeeId].Available(t)
               == st.balances[employeeId].Available(t) - Days(dto.startDate, dto.endDate)
            && st2.balances[employeeId].Available(t) >= 0
  {
    SubmittedIsFirst(st, employeeId, dto, today, now);
    SubmissionIsCoveredButNotReserved(st, employeeId, dto, today, now);
  }

  /** Right after registration the balance query finds the new employee's
      record, holding the initial 20/10/5/0 days. */
  lemma RegisteredEmployeeHasInitialBalance(st: Store, dto: RegisterDto, hashPassword: string -> string)
    requires Register(st, dto, hashPassword).0.Success?
    ensures var (res, st') := Register(st, dto, hashPassword);
            GetLeaveBalance(st', res.value.employeeId) == Success(BalanceView(res.value.employeeId, LeaveBalance(20, 10, 5, 0)))
  {
  }

  /** After an approval the balance query shows the request's day count gone
      from the matching counter, and every other counter as before. */
  lemma BalanceShowsApproval(st: Store, i: int, remark: string)
    requires 0 <= i < |st.requests| && FirstWithId(st.requests, st.requests[i].id, i)
    requires ApproveLeave(st, st.requests[i].id, remark).0.Pass?
    ensures var r := st.requests[i];
            var after := GetLeaveBalance(ApproveLeave(st, r.id, remark).1, r.employeeId);
            && after.Success?
            && forall t :: after.value.balance.Available(t) ==
                 st.balances[r.employeeId].Available(t) - (if t == r.leaveType && !t.Unknown? then Days(r.startDate, r.endDate) else 0)
  {
  }
}
