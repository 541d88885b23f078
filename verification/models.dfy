/**
 * The records the leave workflow reads and writes, and the in-memory store
 * that stands in for the three database tables (employees, leave requests,
 * leave balances). Dates are integer day numbers; submission timestamps are
 * integers on their own clock.
 */
module Models {
  import opened Results

  /** The failures the services report, one per distinct response message.
      The two login failures carry messages that differ only in the case of
      one letter, so to a user they read as the same message. */
  datatype ServiceError =
    | StartDateInPast
    | EndBeforeStart
    | OverlapsApprovedLeave
    | BalanceNotFound
    | InsufficientBalance(leaveType: string, available: int, required: int)
    | RequestNotFound
    | AlreadyProcessed
    | EmailAlreadyExists
    | UnknownEmail
    | WrongPassword

  /** Leave categories. The service keeps the category as free text; the four
      names it recognises become constructors, any other text stays Unknown. */
  datatype LeaveType = Annual | Sick | Casual | Other | Unknown(name: string)

  /** The text stored in the leave-type column for a category. */
  function TypeName(t: LeaveType): string {
    match t
    case Annual => "Annual"
    case Sick => "Sick"
    case Casual => "Casual"
    case Other => "Other"
    case Unknown(name) => name
  }

  /** A category in the form ParseLeaveType produces: Unknown never wraps one
      of the four recognised names. */
  predicate Canonical(t: LeaveType) {
    t.Unknown? ==> t.name != "Annual" && t.name != "Sick" && t.name != "Casual" && t.name != "Other"
  }

  /** Reads the category text of a submission. Matching is exact, as in the
      leave service's `switch` on the string. */
  function ParseLeaveType(s: string): (t: LeaveType)
    ensures Canonical(t)
    ensures TypeName(t) == s
    ensures t.Unknown? <==> s != "Annual" && s != "Sick" && s != "Casual" && s != "Other"
  {
    if s == "Annual" then Annual
    else if s == "Sick" then Sick
    else if s == "Casual" then Casual
    else if s == "Other" then Other
    else Unknown(s)
  }

  /** Parsing the stored name of a canonical category gives the category back. */
  lemma ParseTypeName(t: LeaveType)
    requires Canonical(t)
    ensures ParseLeaveType(TypeName(t)) == t
  {
  }

  /** Request status. The service stores it as text, but only these three
      values are ever written, and a new request starts as Pending. */
  datatype Status = Pending | Approved | Rejected

  /** One leave claim; `startDate` and `endDate` are inclusive day numbers. */
  datatype LeaveRequest = LeaveRequest(
    id: int,
    employeeId: int,
    leaveType: LeaveType,
    startDate: int,
    endDate: int,
    reason: string,
    status: Status,
    adminRemark: Option<string>,
    dateSubmitted: int)

  /** Number of calendar days in the inclusive range [startDate, endDate]. */
  function Days(startDate: int, endDate: int): int {
    endDate - startDate + 1
  }

  /** The four per-category counters of one employee. Counters are plain
      integers: nothing in the workflow keeps them non-negative. */
  datatype LeaveBalance = LeaveBalance(annual: int, sick: int, casual: int, other: int) {

    /** Days left in a category; an unrecognised category has none. */
    function Available(t: LeaveType): int {
      match t
      case Annual => annual
      case Sick => sick
      case Casual => casual
      case Other => other
      case Unknown(_) => 0
    }

    /** Takes `days` off the counter of category `t`. An unrecognised category
        matches no counter and leaves the balance as it is. No lower bound is
        enforced. */
    function Deduct(t: LeaveType, days: int): (b: LeaveBalance)
      ensures !t.Unknown? ==> b.Available(t) == Available(t) - days
      ensures forall u :: u != t ==> b.Available(u) == Available(u)
      ensures t.Unknown? ==> b == this
    {
      match t
      case Annual => this.(annual := annual - days)
      case Sick => this.(sick := sick - days)
      case Casual => this.(casual := casual - days)
      case Other => this.(other := other - days)
      case Unknown(_) => this
    }
  }

  /** The balance every newly registered employee receives. */
  const InitialBalance := LeaveBalance(20, 10, 5, 0)

  /** A registered user. The password is kept only as an opaque hash. */
  datatype Employee = Employee(
    id: int,
    name: string,
    email: string,
    passwordHash: string,
    department: string,
    designation: string,
    role: string)

  /** The three tables, plus the next value of each identity column. */
  datatype Store = Store(
    employees: seq<Employee>,
    requests: seq<LeaveRequest>,
    balances: map<int, LeaveBalance>,
    nextEmployeeId: int,
    nextRequestId: int)

  /** A store with no rows; identity columns start at 1. */
  const EmptyStore := Store([], [], map[], 1, 1)

  /** First index of `s` whose element satisfies `p`: the services'
      `FirstOrDefault`, with None for the missing row. */
  function FindFirst<T>(s: seq<T>, p: T -> bool): (r: Option<nat>)
    ensures r.Some? ==> r.value < |s| && p(s[r.value])
    ensures r.Some? ==> forall k :: 0 <= k < r.value ==> !p(s[k])
    ensures r.None? <==> forall k :: 0 <= k < |s| ==> !p(s[k])
  {
    if |s| == 0 then None
    else if p(s[0]) then Some(0)
    else
      match FindFirst(s[1..], p)
      case None => None
      case Some(k) => Some(k + 1)
  }

  /** `i` is the first position of `rs` holding the request with id `id`. */
  predicate FirstWithId(rs: seq<LeaveRequest>, id: int, i: int) {
    && 0 <= i < |rs|
    && rs[i].id == id
    && forall k :: 0 <= k < i ==> rs[k].id != id
  }

  /** Position of the request with id `id`, if any. */
  function IndexOfRequest(rs: seq<LeaveRequest>, id: int): (r: Option<nat>)
    ensures r.Some? ==> FirstWithId(rs, id, r.value)
    ensures r.None? <==> forall k :: 0 <= k < |rs| ==> rs[k].id != id
  {
    FindFirst(rs, (q: LeaveRequest) => q.id == id)
  }

  /** Some employee is registered under `email`. */
  predicate EmailTaken(es: seq<Employee>, email: string) {
    exists i :: 0 <= i < |es| && es[i].email == email
  }

  /** Display name of an employee, looked up by id; the empty text when no
      employee has that id (which a valid store rules out for its requests). */
  function EmployeeName(es: seq<Employee>, id: int): (name: string)
    ensures (exists i :: 0 <= i < |es| && es[i].id == id && es[i].name == name)
            || (name == [] && forall i :: 0 <= i < |es| ==> es[i].id != id)
  {
    match FindFirst(es, (e: Employee) => e.id == id)
    case Some(i) => es[i].name
    case None => ""
  }

  /** Ids of the registered employees. */
  function EmployeeIds(es: seq<Employee>): set<int> {
    set e | e in es :: e.id
  }

  /** What every stored request satisfies: a non-empty date range and a
      recognised category (submission refuses anything else). */
  predicate WellFormedRequest(r: LeaveRequest) {
    r.startDate <= r.endDate && !r.leaveType.Unknown?
  }

  /** The store invariant the operations maintain: ids and emails unique, ids
      below their identity counters, exactly one balance per employee, and
      every request belonging to an employee. */
  predicate Valid(st: Store) {
    && (forall i, j :: 0 <= i < j < |st.employees| ==>
          st.employees[i].id != st.employees[j].id && st.employees[i].email != st.employees[j].email)
    && (forall e :: e in st.employees ==> e.id < st.nextEmployeeId)
    && st.balances.Keys == EmployeeIds(st.employees)
    && (forall i, j :: 0 <= i < j < |st.requests| ==> st.requests[i].id != st.requests[j].id)
    && (forall r :: r in st.requests ==>
          r.id < st.nextRequestId && r.employeeId in st.balances && WellFormedRequest(r))
  }

  /** A request as the read projections return it: the stored row, the owning
      employee's name and the inclusive day count. */
  datatype LeaveView = LeaveView(request: LeaveRequest, employeeName: string, totalDays: int)

  /** The stored rows behind a list of views. */
  function RequestsOf(vs: seq<LeaveView>): (rs: seq<LeaveRequest>)
    ensures |rs| == |vs|
    ensures forall i :: 0 <= i < |vs| ==> rs[i] == vs[i].request
  {
    seq(|vs|, i requires 0 <= i < |vs| => vs[i].request)
  }

  /** Every row carries the name of its request's employee and the inclusive
      day count of its request, as the projections compute them. */
  predicate Joined(st: Store, vs: seq<LeaveView>) {
    forall i :: 0 <= i < |vs| ==>
      && vs[i].employeeName == EmployeeName(st.employees, vs[i].request.employeeId)
      && vs[i].totalDays == vs[i].request.endDate - vs[i].request.startDate + 1
  }

  /** Joins each request with its employee's name and day count, keeping order. */
  function ViewsOf(st: Store, rs: seq<LeaveRequest>): (vs: seq<LeaveView>)
    ensures RequestsOf(vs) == rs
    ensures Joined(st, vs)
  {
    seq(|rs|, i requires 0 <= i < |rs| =>
      LeaveView(rs[i], EmployeeName(st.employees, rs[i].employeeId), Days(rs[i].startDate, rs[i].endDate)))
  }
}
