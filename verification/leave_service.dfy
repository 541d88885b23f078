/**
 * The leave-request workflow: submission with its ordered validation,
 * approval and rejection of Pending requests, and the request listings.
 * Each state-changing operation is a pure function from the store to a
 * (response, new store) pair.
 */
module LeaveService {
  import opened Results
  import opened Models
  import opened Queries

  /** A submission as it arrives from the employee: the category is free text. */
  datatype LeaveRequestDto = LeaveRequestDto(leaveType: string, startDate: int, endDate: int, reason: string)

  /** The service's three-clause overlap test against an existing request `r`:
      the candidate's start lies inside `r`, or its end does, or it covers `r`. */
  predicate OverlapClauses(start: int, end: int, r: LeaveRequest) {
    || (start >= r.startDate && start <= r.endDate)
    || (end >= r.startDate && end <= r.endDate)
    || (start <= r.startDate && end >= r.endDate)
  }

  /** For non-empty ranges the three clauses mean exactly that the two
      inclusive ranges share a day. */
  lemma OverlapClausesMeanIntersection(start: int, end: int, r: LeaveRequest)
    requires start <= end && r.startDate <= r.endDate
    ensures OverlapClauses(start, end, r) <==> start <= r.endDate && r.startDate <= end
  {
  }

  /** `r` stops employee `employeeId` from taking [start, end]: it is one of
      their Approved requests and the clauses fire. */
  predicate Blocks(r: LeaveRequest, employeeId: int, start: int, end: int) {
    r.employeeId == employeeId && r.status == Approved && OverlapClauses(start, end, r)
  }

  /** The `AnyAsync` overlap query, scanning the table front to back. */
  function HasOverlap(rs: seq<LeaveRequest>, employeeId: int, start: int, end: int): (b: bool)
    ensures b <==> exists i :: 0 <= i < |rs| && Blocks(rs[i], employeeId, start, end)
  {
    if |rs| == 0 then false
    else if Blocks(rs[0], employeeId, start, end) then true
    else
      var b := HasOverlap(rs[1..], employeeId, start, end);
      assert forall i :: 1 <= i < |rs| ==> rs[i] == rs[1..][i - 1];
      b
  }

  /** Over a valid store, the overlap check blocks a well-formed range exactly
      when one of the employee's Approved requests shares a day with it;
      Pending and Rejected requests and other employees' requests never block. */
  lemma HasOverlapMeansSharedDay(st: Store, employeeId: int, start: int, end: int)
    requires Valid(st) && start <= end
    ensures HasOverlap(st.requests, employeeId, start, end) <==>
              exists i :: 0 <= i < |st.requests| && st.requests[i].employeeId == employeeId
                          && st.requests[i].status == Approved
                          && start <= st.requests[i].endDate && st.requests[i].startDate <= end
  {
    forall i | 0 <= i < |st.requests|
      ensures Blocks(st.requests[i], employeeId, start, end) <==>
                st.requests[i].employeeId == employeeId && st.requests[i].status == Approved
                && start <= st.requests[i].endDate && st.requests[i].startDate <= end
    {
      assert st.requests[i] in st.requests;
      OverlapClausesMeanIntersection(start, end, st.requests[i]);
    }
  }

  /** The request a successful submission stores. */
  function NewRequest(id: int, employeeId: int, dto: LeaveRequestDto, now: int): LeaveRequest {
    LeaveRequest(id, employeeId, ParseLeaveType(dto.leaveType), dto.startDate, dto.endDate, dto.reason, Pending, None, now)
  }

  /** The checks a submission passes, in the order they are made. */
  predicate PassesChecks(st: Store, employeeId: int, dto: LeaveRequestDto, today: int) {
    && today <= dto.startDate
    && dto.startDate <= dto.endDate
    && !HasOverlap(st.requests, employeeId, dto.startDate, dto.endDate)
    && employeeId in st.balances
    && st.balances[employeeId].Available(ParseLeaveType(dto.leaveType)) >= Days(dto.startDate, dto.endDate)
  }

  /** `ApplyLeave`: validates a submission fail-fast and, when every check
      passes, appends one Pending request. `today` is the current day and
      `now` the submission timestamp. */
  function ApplyLeave(st: Store, employeeId: int, dto: LeaveRequestDto, today: int, now: int): (res: (Result<int, ServiceError>, Store))
    // Any failure leaves the store exactly as it was.
    ensures res.0.Failure? ==> res.1 == st
    // The checks run in a fixed order and the first failing one decides the error.
    ensures res.0 == Failure(StartDateInPast) <==> dto.startDate < today
    ensures res.0 == Failure(EndBeforeStart) <==> today <= dto.startDate && dto.endDate < dto.startDate
    ensures res.0 == Failure(OverlapsApprovedLeave) <==>
              today <= dto.startDate <= dto.endDate && HasOverlap(st.requests, employeeId, dto.startDate, dto.endDate)
    ensures res.0 == Failure(BalanceNotFound) <==>
              today <= dto.startDate <= dto.endDate && !HasOverlap(st.requests, employeeId, dto.startDate, dto.endDate)
              && employeeId !in st.balances
    ensures (res.0.Failure? && res.0.error.InsufficientBalance?) <==>
              today <= dto.startDate <= dto.endDate && !HasOverlap(st.requests, employeeId, dto.startDate, dto.endDate)
              && employeeId in st.balances
              && st.balances[employeeId].Available(ParseLeaveType(dto.leaveType)) < Days(dto.startDate, dto.endDate)
    ensures (res.0.Failure? && res.0.error.InsufficientBalance?) ==>
              res.0.error == InsufficientBalance(dto.leaveType,
                                                 st.balances[employeeId].Available(ParseLeaveType(dto.leaveType)),
                                                 dto.endDate - dto.startDate + 1)
    ensures res.0.Success? <==> PassesChecks(st, employeeId, dto, today)
    // Success appends exactly one Pending request, returns its id, and touches nothing else.
    ensures res.0.Success? ==>
              && res.0.value == st.nextRequestId
              && |res.1.requests| == |st.requests| + 1
              && res.1.requests[..|st.requests|] == st.requests
              && res.1.requests[|st.requests|] == NewRequest(res.0.value, employeeId, dto, now)
              && res.1.balances == st.balances
              && res.1.employees == st.employees
              && res.1.nextEmployeeId == st.nextEmployeeId
              && res.1.nextRequestId == st.nextRequestId + 1
  {
    if dto.startDate < today then (Failure(StartDateInPast), st)
    else if dto.endDate < dto.startDate then (Failure(EndBeforeStart), st)
    else if HasOverlap(st.requests, employeeId, dto.startDate, dto.endDate) then (Failure(OverlapsApprovedLeave), st)
    else
      var days := Days(dto.startDate, dto.endDate);
      if employeeId !in st.balances then (Failure(BalanceNotFound), st)
      else
        var available := st.balances[employeeId].Available(ParseLeaveType(dto.leaveType));
        if available < days then (Failure(InsufficientBalance(dto.leaveType, available, days)), st)
        else
          var id := st.nextRequestId;
          var stored := st.(requests := st.requests + [NewRequest(id, employeeId, dto, now)], nextRequestId := id + 1);
          assert stored.requests[..|st.requests|] == st.requests;
          (Success(id), stored)
  }

  /** A successful submission covers at least one day, names a recognised
      category with enough days left, and reserves nothing from the balance. */
  lemma SubmissionIsCoveredButNotReserved(st: Store, employeeId: int, dto: LeaveRequestDto, today: int, now: int)
    requires ApplyLeave(st, employeeId, dto, today, now).0.Success?
    ensures Days(dto.startDate, dto.endDate) >= 1
    ensures !ParseLeaveType(dto.leaveType).Unknown?
    ensures st.balances[employeeId].Available(ParseLeaveType(dto.leaveType)) >= Days(dto.startDate, dto.endDate)
    ensures ApplyLeave(st, employeeId, dto, today, now).1.balances == st.balances
  {
  }

  /** A category text other than the four recognised names never gets
      through: it has no days available and every request needs one. */
  lemma UnknownTypeNeverSubmits(st: Store, employeeId: int, dto: LeaveRequestDto, today: int, now: int)
    requires ParseLeaveType(dto.leaveType).Unknown?
    ensures ApplyLeave(st, employeeId, dto, today, now).0.Failure?
    ensures ApplyLeave(st, employeeId, dto, today, now).1 == st
  {
  }

  /** Pending and Rejected requests never block a submission: adding one to
      the table does not change the overlap answer. */
  lemma NonApprovedNeverBlocks(rs: seq<LeaveRequest>, q: LeaveRequest, employeeId: int, start: int, end: int)
    requires q.status != Approved
    ensures HasOverlap(rs + [q], employeeId, start, end) == HasOverlap(rs, employeeId, start, end)
  {
    var rs' := rs + [q];
    if HasOverlap(rs', employeeId, start, end) {
      var i :| 0 <= i < |rs'| && Blocks(rs'[i], employeeId, start, end);
      assert i < |rs| && rs'[i] == rs[i];
    }
    if HasOverlap(rs, employeeId, start, end) {
      var i :| 0 <= i < |rs| && Blocks(rs[i], employeeId, start, end);
      assert rs'[i] == rs[i];
    }
  }

  /** `ApproveLeave`: a Pending request with a balance record becomes
      Approved, gets the remark, and its inclusive day count comes off the
      matching counter. There is no check that the counter covers the days,
      and none that the range is still free of Approved leave. */
  function ApproveLeave(st: Store, requestId: int, remark: string): (res: (Outcome<ServiceError>, Store))
    ensures res.0.Fail? ==> res.1 == st
    ensures res.0 == Fail(RequestNotFound) <==> forall k :: 0 <= k < |st.requests| ==> st.requests[k].id != requestId
    ensures forall i :: FirstWithId(st.requests, requestId, i) ==>
              var r := st.requests[i];
              && (res.0 == Fail(AlreadyProcessed) <==> r.status != Pending)
              && (res.0 == Fail(BalanceNotFound) <==> r.status == Pending && r.employeeId !in st.balances)
              && (res.0.Pass? <==> r.status == Pending && r.employeeId in st.balances)
              && (res.0.Pass? ==>
                    && res.1.requests == st.requests[i := r.(status := Approved, adminRemark := Some(remark))]
                    && res.1.employees == st.employees
                    && res.1.nextEmployeeId == st.nextEmployeeId
                    && res.1.nextRequestId == st.nextRequestId
                    && res.1.balances.Keys == st.balances.Keys
                    && (forall e :: e in st.balances && e != r.employeeId ==> res.1.balances[e] == st.balances[e])
                    && (forall t :: res.1.balances[r.employeeId].Available(t) ==
                          st.balances[r.employeeId].Available(t)
                          - (if t == r.leaveType && !t.Unknown? then r.endDate - r.startDate + 1 else 0)))
  {
    match IndexOfRequest(st.requests, requestId)
    case None => (Fail(RequestNotFound), st)
    case Some(i) =>
      var r := st.requests[i];
      if r.status != Pending then (Fail(AlreadyProcessed), st)
      else
        var days := Days(r.startDate, r.endDate);
        if r.employeeId !in st.balances then (Fail(BalanceNotFound), st)
        else
          var balance := st.balances[r.employeeId].Deduct(r.leaveType, days);
          var approved := r.(status := Approved, adminRemark := Some(remark));
          (Pass, st.(requests := st.requests[i := approved], balances := st.balances[r.employeeId := balance]))
  }

  /** `RejectLeave`: a Pending request becomes Rejected and gets the remark;
      balances are never read or written. */
  function RejectLeave(st: Store, requestId: int, remark: string): (res: (Outcome<ServiceError>, Store))
    ensures res.0.Fail? ==> res.1 == st
    ensures res.1.balances == st.balances
    ensures res.0 == Fail(RequestNotFound) <==> forall k :: 0 <= k < |st.requests| ==> st.requests[k].id != requestId
    ensures forall i :: FirstWithId(st.requests, requestId, i) ==>
              var r := st.requests[i];
              && (res.0 == Fail(AlreadyProcessed) <==> r.status != Pending)
              && (res.0.Pass? <==> r.status == Pending)
              && (res.0.Pass? ==>
                    res.1 == st.(requests := st.requests[i := r.(status := Rejected, adminRemark := Some(remark))]))
  {
    match IndexOfRequest(st.requests, requestId)
    case None => (Fail(RequestNotFound), st)
    case Some(i) =>
      var r := st.requests[i];
      if r.status != Pending then (Fail(AlreadyProcessed), st)
      else (Pass, st.(requests := st.requests[i := r.(status := Rejected, adminRemark := Some(remark))]))
  }

  /** `GetAllPendingLeaves`: every Pending request, oldest submission first,
      each with its inclusive day count and employee name. */
  function GetAllPendingLeaves(st: Store): (r: seq<LeaveView>)
    ensures Selects(RequestsOf(r), st.requests, HasStatus(Pending))
    ensures Sorted(RequestsOf(r), BySubmitted, Ascending)
    ensures forall i :: 0 <= i < |r| ==> r[i].request.status == Pending
    ensures Joined(st, r)
  {
    var s := Query(st.requests, HasStatus(Pending), BySubmitted, Ascending);
    var vs := ViewsOf(st, s);
    assert RequestsOf(vs) == s;
    vs
  }

  /** `GetLeaveHistory`: every request, newest submission first. */
  function GetLeaveHistory(st: Store): (r: seq<LeaveView>)
    ensures multiset(RequestsOf(r)) == multiset(st.requests)
    ensures Sorted(RequestsOf(r), BySubmitted, Descending)
    ensures Joined(st, r)
  {
    var s := Query(st.requests, Anything, BySubmitted, Descending);
    assert multiset(s) == multiset(st.requests) by {
      forall x ensures multiset(s)[x] == multiset(st.requests)[x] { }
    }
    ViewsOf(st, s)
  }

  /** `GetEmployeeLeaveRequests` as written: its filter compares the argument
      with itself, which always holds, so it lists every employee's requests,
      newest submission first. */
  function GetEmployeeLeaveRequests(st: Store, employeeId: int): (r: seq<LeaveView>)
    ensures multiset(RequestsOf(r)) == multiset(st.requests)
    ensures Sorted(RequestsOf(r), BySubmitted, Descending)
    ensures Joined(st, r)
  {
    var s := Query(st.requests, Anything, BySubmitted, Descending);
    assert multiset(s) == multiset(st.requests) by {
      forall x ensures multiset(s)[x] == multiset(st.requests)[x] { }
    }
    ViewsOf(st, s)
  }

  /** The listing as written does not depend on whose requests are asked for:
      one employee sees another's requests. */
  lemma EmployeeListingShowsOthers(st: Store, employeeId: int, k: int)
    requires 0 <= k < |st.requests| && st.requests[k].employeeId != employeeId
    ensures exists i :: 0 <= i < |GetEmployeeLeaveRequests(st, employeeId)|
                        && GetEmployeeLeaveRequests(st, employeeId)[i].request == st.requests[k]
                        && GetEmployeeLeaveRequests(st, employeeId)[i].request.employeeId != employeeId
  {
    var r := GetEmployeeLeaveRequests(st, employeeId);
    var rs := RequestsOf(r);
    assert st.requests[k] in multiset(st.requests);
    assert st.requests[k] in multiset(rs);
    var i :| 0 <= i < |rs| && rs[i] == st.requests[k];
    assert r[i].request == st.requests[k];
  }

  /** The intended listing: only this employee's requests, newest first. */
  function GetOwnLeaveRequests(st: Store, employeeId: int): (r: seq<LeaveView>)
    ensures Selects(RequestsOf(r), st.requests, OfEmployee(employeeId))
    ensures Sorted(RequestsOf(r), BySubmitted, Descending)
    ensures forall i :: 0 <= i < |r| ==> r[i].request.employeeId == employeeId
    ensures Joined(st, r)
  {
    var s := Query(st.requests, OfEmployee(employeeId), BySubmitted, Descending);
    var vs := ViewsOf(st, s);
    assert RequestsOf(vs) == s;
    vs
  }
}
