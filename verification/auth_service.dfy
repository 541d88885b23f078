/**
 * Registration and the lookup half of login. Password hashing, password
 * verification and token issuing are library calls whose behaviour is not
 * modelled: they arrive as function parameters.
 */
module AuthService {
  import opened Results
  import opened Models

  /** A registration form. `role` is accepted but never used. */
  datatype RegisterDto = RegisterDto(
    name: string,
    email: string,
    password: string,
    department: string,
    designation: string,
    role: string)

  datatype LoginDto = LoginDto(email: string, password: string)

  /** A successful auth response. Registration issues no token; login leaves
      the role unset. */
  datatype AuthResponse = AuthResponse(
    token: Option<string>,
    role: Option<string>,
    employeeId: int,
    name: string,
    email: string)

  /** The only role registration ever assigns. */
  const EmployeeRole := "Employee"

  /** `Register`: refuses an email already in use; otherwise adds the
      employee under the next identity value, with the hashed password and the
      Employee role, and gives them the initial balance. */
  function Register(st: Store, dto: RegisterDto, hashPassword: string -> string): (res: (Result<AuthResponse, ServiceError>, Store))
    ensures res.0.Failure? <==> EmailTaken(st.employees, dto.email)
    ensures res.0.Failure? ==> res.0.error == EmailAlreadyExists && res.1 == st
    ensures res.0.Success? ==>
              var id := res.0.value.employeeId;
              && id == st.nextEmployeeId
              && res.1.employees == st.employees + [Employee(id, dto.name, dto.email, hashPassword(dto.password),
                                                             dto.department, dto.designation, EmployeeRole)]
              && res.1.balances == st.balances[id := InitialBalance]
              && res.1.requests == st.requests
              && res.1.nextEmployeeId == id + 1
              && res.1.nextRequestId == st.nextRequestId
              && res.0.value == AuthResponse(None, Some(EmployeeRole), id, dto.name, dto.email)
  {
    if EmailTaken(st.employees, dto.email) then (Failure(EmailAlreadyExists), st)
    else
      var id := st.nextEmployeeId;
      var employee := Employee(id, dto.name, dto.email, hashPassword(dto.password), dto.department, dto.designation, EmployeeRole);
      var st' := st.(employees := st.employees + [employee], nextEmployeeId := id + 1);
      var st'' := st'.(balances := st'.balances[id := InitialBalance]);
      (Success(AuthResponse(None, Some(employee.role), employee.id, employee.name, employee.email)), st'')
  }

  /** The requested role has no effect: registering with any other role gives
      the same response and the same store, and the stored role is Employee. */
  lemma RegisterIgnoresRequestedRole(st: Store, dto: RegisterDto, hashPassword: string -> string, role: string)
    ensures Register(st, dto.(role := role), hashPassword) == Register(st, dto, hashPassword)
    ensures Register(st, dto, hashPassword).0.Success? ==>
              Register(st, dto, hashPassword).1.employees[|st.employees|].role == "Employee"
  {
  }

  /** On a valid store a registration creates exactly one balance, for an id
      that had none, holding 20 annual, 10 sick, 5 casual and 0 other days. */
  lemma RegisterCreatesOneBalance(st: Store, dto: RegisterDto, hashPassword: string -> string)
    requires Valid(st)
    requires Register(st, dto, hashPassword).0.Success?
    ensures var (res, st') := Register(st, dto, hashPassword);
            && res.value.employeeId !in st.balances
            && st'.balances.Keys == st.balances.Keys + {res.value.employeeId}
            && st'.balances[res.value.employeeId] == LeaveBalance(20, 10, 5, 0)
            && forall e :: e in st.balances ==> st'.balances[e] == st.balances[e]
  {
    assert st.nextEmployeeId !in EmployeeIds(st.employees);
  }

  /** `i` is the first registered employee using `email`. */
  predicate FirstWithEmail(es: seq<Employee>, email: string, i: int) {
    && 0 <= i < |es|
    && es[i].email == email
    && forall k :: 0 <= k < i ==> es[k].email != email
  }

  /** `Login`: finds the first employee with the email, checks the password
      against their hash, and on success issues a token. */
  function Login(st: Store, dto: LoginDto, verify: (string, string) -> bool, issueToken: Employee -> string): (r: Result<AuthResponse, ServiceError>)
    ensures r == Failure(UnknownEmail) <==> !EmailTaken(st.employees, dto.email)
    ensures forall i :: FirstWithEmail(st.employees, dto.email, i) ==>
              var e := st.employees[i];
              && (r == Failure(WrongPassword) <==> !verify(dto.password, e.passwordHash))
              && (r.Success? <==> verify(dto.password, e.passwordHash))
              && (r.Success? ==> r.value == AuthResponse(Some(issueToken(e)), None, e.id, e.name, e.email))
  {
    match FindFirst(st.employees, (e: Employee) => e.email == dto.email)
    case None => Failure(UnknownEmail)
    case Some(i) =>
      var e := st.employees[i];
      if !verify(dto.password, e.passwordHash) then Failure(WrongPassword)
      else Success(AuthResponse(Some(issueToken(e)), None, e.id, e.name, e.email))
  }

  /** With unique emails, login succeeds exactly when some employee has the
      email and the password verifies against that employee's hash. */
  lemma LoginSucceedsIffCredentialsMatch(st: Store, dto: LoginDto, verify: (string, string) -> bool, issueToken: Employee -> string)
    requires Valid(st)
    ensures Login(st, dto, verify, issueToken).Success? <==>
              exists i :: 0 <= i < |st.employees| && st.employees[i].email == dto.email
                          && verify(dto.password, st.employees[i].passwordHash)
  {
    if EmailTaken(st.employees, dto.email) {
      var i :| 0 <= i < |st.employees| && st.employees[i].email == dto.email;
      assert FirstWithEmail(st.employees, dto.email, i);
    }
  }
}
