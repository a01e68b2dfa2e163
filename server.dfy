/** The gRPC handlers: each checks its request fields in a fixed order, calls
    the service only when they are all present, and maps the service's error
    to a status code. `outcome` is what the service returns when called with
    the request's own fields; a handler that rejects the request never looks at
    it. No handler puts the text of a service error in its status. */
module Server {
  import opened Wrappers
  import opened Errors
  import Jwt
  import Format

  /** The protobuf default that stands for an absent id. */
  const EmptyValue := 0

  datatype Code = InvalidArgument | NotFound | AlreadyExists | Internal

  datatype Status = Status(code: Code, message: string)

  datatype LoginRequest = LoginRequest(email: string, password: string, appId: int)
  datatype RegisterRequest = RegisterRequest(email: string, password: string)
  datatype IsAdminRequest = IsAdminRequest(userId: int)

  predicate LoginComplete(req: LoginRequest)
  {
    req.email != "" && req.password != "" && req.appId != EmptyValue
  }

  /** `serverAPI.Login`: the token on success; NotFound for invalid
      credentials anywhere on the error chain; Internal for anything else. */
  function Login(req: LoginRequest, outcome: Result<Jwt.Token, Error>): (r: Result<Jwt.Token, Status>)
    ensures r.Ok? <==> LoginComplete(req) && outcome.Ok?
    ensures r.Ok? ==> r.value == outcome.value
    ensures r.Err? ==> (r.error.code == InvalidArgument <==> !LoginComplete(req))
    ensures r.Err? ==> (r.error.code == NotFound <==> LoginComplete(req) && Is(outcome.error, InvalidCredentials))
    ensures r.Err? ==> r.error.code in {InvalidArgument, NotFound, Internal}
    ensures r.Err? && r.error.code == Internal ==> r.error.message == "Internal error"
  {
    if req.email == "" then Err(Status(InvalidArgument, "Email is empty"))
    else if req.password == "" then Err(Status(InvalidArgument, "Password is empty"))
    else if req.appId == EmptyValue then Err(Status(InvalidArgument, "App_id is empty"))
    else
      match outcome
      case Err(e) =>
        if Is(e, InvalidCredentials) then Err(Status(NotFound, "Invalid credentials"))
        else Err(Status(Internal, "Internal error"))
      case Ok(token) => Ok(token)
  }

  /** The fields are checked email first, then password, then app id, and a
      rejected request does not depend on the service. */
  lemma LoginChecksFieldsInOrder(req: LoginRequest, outcome: Result<Jwt.Token, Error>, other: Result<Jwt.Token, Error>)
    ensures req.email == "" ==> Login(req, outcome) == Err(Status(InvalidArgument, "Email is empty"))
    ensures req.email != "" && req.password == "" ==>
              Login(req, outcome) == Err(Status(InvalidArgument, "Password is empty"))
    ensures req.email != "" && req.password != "" && req.appId == EmptyValue ==>
              Login(req, outcome) == Err(Status(InvalidArgument, "App_id is empty"))
    ensures !LoginComplete(req) ==> Login(req, outcome) == Login(req, other)
  {
  }

  /** Every error other than invalid credentials gives the same generic
      Internal status, whatever its text. */
  lemma LoginHidesInternalErrors(req: LoginRequest, e: Error)
    requires LoginComplete(req) && !Is(e, InvalidCredentials)
    ensures Login(req, Err(e)) == Err(Status(Internal, "Internal error"))
  {
  }

  predicate RegisterComplete(req: RegisterRequest)
  {
    req.email != "" && req.password != ""
  }

  /** `serverAPI.Register`: the new id on success; AlreadyExists naming the
      email for an existing user; Internal for anything else. */
  function Register(req: RegisterRequest, outcome: Result<int, Error>): (r: Result<int, Status>)
    ensures r.Ok? <==> RegisterComplete(req) && outcome.Ok?
    ensures r.Ok? ==> r.value == outcome.value
    ensures r.Err? ==> (r.error.code == InvalidArgument <==> !RegisterComplete(req))
    ensures r.Err? ==> (r.error.code == AlreadyExists <==> RegisterComplete(req) && Is(outcome.error, UserExists))
    ensures r.Err? && r.error.code == AlreadyExists ==> r.error.message == "User already exist with email: " + req.email
    ensures r.Err? ==> r.error.code in {InvalidArgument, AlreadyExists, Internal}
    ensures r.Err? && r.error.code == Internal ==> r.error.message == "Internal error"
  {
    if req.email == "" then Err(Status(InvalidArgument, "email is empty"))
    else if req.password == "" then Err(Status(InvalidArgument, "password is empty"))
    else
      match outcome
      case Err(e) =>
        if Is(e, UserExists) then Err(Status(AlreadyExists, "User already exist with email: " + req.email))
        else Err(Status(Internal, "Internal error"))
      case Ok(id) => Ok(id)
  }

  /** Email is checked before password, and a rejected request does not
      depend on the service. */
  lemma RegisterChecksFieldsInOrder(req: RegisterRequest, outcome: Result<int, Error>, other: Result<int, Error>)
    ensures req.email == "" ==> Register(req, outcome) == Err(Status(InvalidArgument, "email is empty"))
    ensures req.email != "" && req.password == "" ==>
              Register(req, outcome) == Err(Status(InvalidArgument, "password is empty"))
    ensures !RegisterComplete(req) ==> Register(req, outcome) == Register(req, other)
  {
  }

  /** Every error other than an existing user gives the same generic Internal
      status, whatever its text. */
  lemma RegisterHidesInternalErrors(req: RegisterRequest, e: Error)
    requires RegisterComplete(req) && !Is(e, UserExists)
    ensures Register(req, Err(e)) == Err(Status(Internal, "Internal error"))
  {
  }

  /** `serverAPI.IsAdmin`: the flag on success; NotFound naming the id for the
      service's `ErrUserNotFound`; Internal for anything else. */
  function IsAdmin(req: IsAdminRequest, outcome: Result<bool, Error>): (r: Result<bool, Status>)
    ensures r.Ok? <==> req.userId != EmptyValue && outcome.Ok?
    ensures r.Ok? ==> r.value == outcome.value
    ensures r.Err? ==> (r.error.code == InvalidArgument <==> req.userId == EmptyValue)
    ensures r.Err? ==> (r.error.code == NotFound <==> req.userId != EmptyValue && Is(outcome.error, UserNotFound))
    ensures r.Err? && r.error.code == NotFound ==>
              r.error.message == "User not found with id: " + Format.Decimal(req.userId)
    ensures r.Err? ==> r.error.code in {InvalidArgument, NotFound, Internal}
    ensures r.Err? && r.error.code == InvalidArgument ==> r.error.message == "user_id is empty"
    ensures r.Err? && r.error.code == Internal ==> r.error.message == "Not correctly user_id or internal error"
  {
    if req.userId == EmptyValue then Err(Status(InvalidArgument, "user_id is empty"))
    else
      match outcome
      case Err(e) =>
        if Is(e, UserNotFound) then
          Err(Status(NotFound, "User not found with id: " + Format.Decimal(req.userId)))
        else Err(Status(Internal, "Not correctly user_id or internal error"))
      case Ok(flag) => Ok(flag)
  }

  /** Every error other than an unknown user gives the same Internal status,
      whatever its text. */
  lemma IsAdminHidesInternalErrors(req: IsAdminRequest, e: Error)
    requires req.userId != EmptyValue && !Is(e, UserNotFound)
    ensures IsAdmin(req, Err(e)) == Err(Status(Internal, "Not correctly user_id or internal error"))
  {
  }

  /** The NotFound status of IsAdmin tells ids apart: its message determines
      the id asked about. */
  lemma IsAdminNotFoundNamesTheId(req1: IsAdminRequest, req2: IsAdminRequest, outcome1: Result<bool, Error>,
                                  outcome2: Result<bool, Error>)
    requires IsAdmin(req1, outcome1).Err? && IsAdmin(req1, outcome1).error.code == NotFound
    requires IsAdmin(req2, outcome2) == IsAdmin(req1, outcome1)
    ensures req1.userId == req2.userId
  {
    var prefix := "User not found with id: ";
    var m1 := prefix + Format.Decimal(req1.userId);
    var m2 := prefix + Format.Decimal(req2.userId);
    assert m1[|prefix|..] == Format.Decimal(req1.userId);
    assert m2[|prefix|..] == Format.Decimal(req2.userId);
    Format.DecimalRoundTrip(req1.userId);
    Format.DecimalRoundTrip(req2.userId);
  }
}
