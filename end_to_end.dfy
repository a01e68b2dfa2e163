/** The handlers composed with the service over the PostgreSQL storage: what a
    gRPC client observes. */
module EndToEnd {
  import opened Wrappers
  import opened Errors
  import opened Models
  import opened Tables
  import Bcrypt
  import Jwt
  import Format
  import AuthService
  import Server

  /** An unknown email and a wrong password for a known one produce the same
      NotFound "Invalid credentials" reply (auth_register_login_test.go). */
  lemma LoginCredentialFailuresLookAlike(a: AuthService.Auth, unknown: string, known: string,
                                         password1: string, password2: string, appId: int,
                                         hasher: Bcrypt.Hasher, now: int,
                                         appQuery1: Fault, signing1: Option<string>,
                                         appQuery2: Fault, signing2: Option<string>)
    requires a.storage.Valid()
    requires unknown != "" && known != "" && password1 != "" && password2 != "" && appId != Server.EmptyValue
    requires UserByEmail(a.storage.db, unknown).None?
    requires UserByEmail(a.storage.db, known).Some?
    requires !hasher.compare(UserByEmail(a.storage.db, known).value.passHash, password2)
    ensures Server.Login(Server.LoginRequest(unknown, password1, appId),
                         a.Login(unknown, password1, appId, hasher, now, Healthy, appQuery1, signing1))
         == Server.Login(Server.LoginRequest(known, password2, appId),
                         a.Login(known, password2, appId, hasher, now, Healthy, appQuery2, signing2))
         == Err(Server.Status(Server.NotFound, "Invalid credentials"))
  {
    a.LoginUnknownEmail(unknown, password1, appId, hasher, now, appQuery1, signing1);
    a.LoginWrongPassword(known, password2, appId, hasher, now, appQuery2, signing2);
  }

  /** With the right password and an existing app, a failing token signer is
      reported as Internal, not as invalid credentials. */
  lemma LoginSigningFailureIsInternal(a: AuthService.Auth, email: string, password: string, appId: int,
                                      hasher: Bcrypt.Hasher, now: int, message: string)
    requires a.storage.Valid()
    requires email != "" && password != "" && appId != Server.EmptyValue
    requires UserByEmail(a.storage.db, email).Some? && appId in a.storage.db.apps
    requires hasher.compare(UserByEmail(a.storage.db, email).value.passHash, password)
    ensures Server.Login(Server.LoginRequest(email, password, appId),
                         a.Login(email, password, appId, hasher, now, Healthy, Healthy, Some(message)))
         == Err(Server.Status(Server.Internal, "Internal error"))
  {
    a.LoginSigningFailurePropagates(email, password, appId, hasher, now, message);
  }

  /** With the right password, an app id that names no app is reported as
      Internal, not as invalid credentials. */
  lemma LoginUnknownAppIsInternal(a: AuthService.Auth, email: string, password: string, appId: int,
                                  hasher: Bcrypt.Hasher, now: int, signing: Option<string>)
    requires a.storage.Valid()
    requires email != "" && password != "" && appId != Server.EmptyValue
    requires UserByEmail(a.storage.db, email).Some? && appId !in a.storage.db.apps
    requires hasher.compare(UserByEmail(a.storage.db, email).value.passHash, password)
    ensures Server.Login(Server.LoginRequest(email, password, appId),
                         a.Login(email, password, appId, hasher, now, Healthy, Healthy, signing))
         == Err(Server.Status(Server.Internal, "Internal error"))
  {
    a.LoginAppFailurePropagates(email, password, appId, hasher, now, Healthy, signing);
  }

  /** As written, IsAdmin for an id that names no user answers Internal: the
      service passes the store's `ErrUserNotFound` on, and the handler tests
      for the service's own `ErrUserNotFound`, a different value. */
  lemma IsAdminUnknownUserIsInternal(a: AuthService.Auth, userId: int)
    requires a.storage.Valid() && userId != Server.EmptyValue && userId !in a.storage.db.users
    ensures Server.IsAdmin(Server.IsAdminRequest(userId), a.IsAdmin(userId, Healthy))
         == Err(Server.Status(Server.Internal, "Not correctly user_id or internal error"))
  {
  }

  /** With the store's `ErrUserNotFound` translated, the same request answers
      NotFound naming the id, and healthy lookups of existing users are
      unaffected. */
  lemma IsAdminTranslatedUnknownUserIsNotFound(a: AuthService.Auth, userId: int)
    requires a.storage.Valid() && userId != Server.EmptyValue
    ensures userId !in a.storage.db.users ==>
              Server.IsAdmin(Server.IsAdminRequest(userId), a.IsAdminTranslated(userId, Healthy))
              == Err(Server.Status(Server.NotFound, "User not found with id: " + Format.Decimal(userId)))
    ensures userId in a.storage.db.users ==>
              Server.IsAdmin(Server.IsAdminRequest(userId), a.IsAdminTranslated(userId, Healthy))
              == Server.IsAdmin(Server.IsAdminRequest(userId), a.IsAdmin(userId, Healthy))
              == Ok(a.storage.db.users[userId].isAdmin)
  {
  }

  /** Registering a new email and logging in with the same password yields a
      token for the new id, the email and the app, expiring one TTL after the
      login (auth_register_login_test.go, happy path). */
  method RegisterThenLogin(a: AuthService.Auth, email: string, password: string, appId: int,
                           hasher: Bcrypt.Hasher, now: int)
      returns (registered: Result<int, Server.Status>, login: Result<Jwt.Token, Server.Status>)
    requires a.storage.Valid() && Bcrypt.Sound(hasher) && hasher.generate(password).Ok?
    requires email != "" && password != "" && appId != Server.EmptyValue
    requires UserByEmail(a.storage.db, email).None? && appId in a.storage.db.apps
    modifies a.storage
    ensures a.storage.Valid()
    ensures registered.Ok? && registered.value > 0 && registered.value !in old(a.storage.db.users)
    ensures a.storage.db.apps == old(a.storage.db.apps)
    ensures login.Ok?
    ensures login.value.claims == Jwt.Claims(registered.value, email, appId, [], now + a.tokenTTL)
    ensures login.value.signature.key == a.storage.db.apps[appId].secret
  {
    var id := a.RegisterNewUser(email, password, hasher, Healthy);
    registered := Server.Register(Server.RegisterRequest(email, password), id);
    a.LoginSucceeds(email, password, appId, hasher, now);
    login := Server.Login(Server.LoginRequest(email, password, appId),
                          a.Login(email, password, appId, hasher, now, Healthy, Healthy, None));
  }

  /** Registering an email twice: the second reply is AlreadyExists naming the
      email, carries no id, and the users table is as the first call left it. */
  method RegisterTwice(a: AuthService.Auth, email: string, password: string, hasher: Bcrypt.Hasher)
      returns (first: Result<int, Server.Status>, second: Result<int, Server.Status>)
    requires a.storage.Valid() && hasher.generate(password).Ok?
    requires email != "" && password != "" && UserByEmail(a.storage.db, email).None?
    modifies a.storage
    ensures a.storage.Valid()
    ensures first == Ok(old(a.storage.db).nextUserId)
    ensures second == Err(Server.Status(Server.AlreadyExists, "User already exist with email: " + email))
    ensures a.storage.db == InsertUser(old(a.storage.db), email, hasher.generate(password).value)
  {
    var id1 := a.RegisterNewUser(email, password, hasher, Healthy);
    first := Server.Register(Server.RegisterRequest(email, password), id1);
    var id2 := a.RegisterNewUser(email, password, hasher, Healthy);
    second := Server.Register(Server.RegisterRequest(email, password), id2);
  }

  /** When the insert fails for a reason other than a taken email, the storage
      swallows the error and the client is told the registration succeeded
      with id 0, though no user was stored. */
  method RegisterDuringQueryFailure(a: AuthService.Auth, email: string, password: string,
                                    hasher: Bcrypt.Hasher, message: string)
      returns (reply: Result<int, Server.Status>)
    requires a.storage.Valid() && hasher.generate(password).Ok?
    requires email != "" && password != ""
    modifies a.storage
    ensures reply == Ok(0)
    ensures a.storage.db == old(a.storage.db)
  {
    var id := a.RegisterNewUser(email, password, hasher, QueryFailed(message));
    reply := Server.Register(Server.RegisterRequest(email, password), id);
  }
}
