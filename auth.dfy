/** The authentication service: decision chains over what the storage reports.
    It is wired to the PostgreSQL adapter, which serves as user saver, user
    provider, app provider and app saver at once. */
module AuthService {
  import opened Wrappers
  import opened Errors
  import opened Models
  import opened Tables
  import Bcrypt
  import Jwt
  import Postgres

  const LoginOp := "auth.Login"
  const RegisterOp := "auth.RegisterNewUser"
  const IsAdminOp := "auth.IsAdmin"
  const CreateAppOp := "auth.NewApp"

  /** The error every credential failure of Login reports. */
  const InvalidCredentialsError: Error := Wrapped(LoginOp, Sentinel(InvalidCredentials))

  /** The error IsAdmin reports for an error of the store's IsAdmin: wrapped
      with the operation name, with `ErrAppNotFound` turned into
      `ErrInvalidCredentials` and every other sentinel still matching. */
  function IsAdminError(e: Error): (r: Error)
    ensures r.Wrapped? && r.op == IsAdminOp
    ensures Is(e, StorageAppNotFound) ==> Is(r, InvalidCredentials) && !Is(r, StorageAppNotFound)
    ensures !Is(e, StorageAppNotFound) ==> forall k :: Is(r, k) <==> Is(e, k)
  {
    if Is(e, StorageAppNotFound) then Wrapped(IsAdminOp, Sentinel(InvalidCredentials))
    else Wrapped(IsAdminOp, e)
  }

  class Auth {
    const storage: Postgres.Storage
    /** Token lifetime in seconds; the application passes its gRPC timeout here. */
    const tokenTTL: int

    /** `NewAuth`: fields are set once and never updated. */
    constructor (storage: Postgres.Storage, tokenTTL: int)
      ensures this.storage == storage && this.tokenTTL == tokenTTL
    {
      this.storage := storage;
      this.tokenTTL := tokenTTL;
    }

    /** Logs a user in to an app at time `now`. A token is issued only for a
        stored user whose hash matches the password and an existing app; it
        carries that user and app, is signed with the app's own secret, and is
        accepted from `now` until, not including, `now + tokenTTL`. */
    function Login(email: string, password: string, appId: int, hasher: Bcrypt.Hasher, now: int,
                   userQuery: Fault, appQuery: Fault, signing: Option<string>): (r: Result<Jwt.Token, Error>)
      reads storage
      requires storage.Valid()
      ensures r.Ok? ==>
                && userQuery.Healthy? && appQuery.Healthy? && signing.None?
                && UserByEmail(storage.db, email).Some? && appId in storage.db.apps
                && var user := UserByEmail(storage.db, email).value;
                   && hasher.compare(user.passHash, password)
                   && r.value.claims == Jwt.Claims(user.id, email, appId, user.roles, now + tokenTTL)
                   && (forall later | now <= later < now + tokenTTL ::
                         Jwt.Verify(r.value, storage.db.apps[appId].secret, later) == Ok(r.value.claims))
                   && Jwt.Verify(r.value, storage.db.apps[appId].secret, now + tokenTTL) == Err(Jwt.Expired)
      ensures r.Err? ==> r.error.Wrapped? && r.error.op == LoginOp
    {
      match storage.User(email, userQuery)
      case Err(e) =>
        if Is(e, StorageUserNotFound) then Err(InvalidCredentialsError)
        else Err(Wrapped(LoginOp, e))
      case Ok(user) =>
        if !hasher.compare(user.passHash, password) then Err(InvalidCredentialsError)
        else
          match storage.App(appId, appQuery)
          case Err(e) => Err(Wrapped(LoginOp, e))
          case Ok(app) =>
            match Jwt.NewToken(user, app, tokenTTL, now, signing)
            case Err(e) => Err(Wrapped(LoginOp, e))
            case Ok(token) => Ok(token)
    }

    /** An email with no user row gives `ErrInvalidCredentials`. */
    lemma LoginUnknownEmail(email: string, password: string, appId: int, hasher: Bcrypt.Hasher, now: int,
                            appQuery: Fault, signing: Option<string>)
      requires storage.Valid() && UserByEmail(storage.db, email).None?
      ensures Login(email, password, appId, hasher, now, Healthy, appQuery, signing) == Err(InvalidCredentialsError)
      ensures Is(InvalidCredentialsError, InvalidCredentials)
    {
    }

    /** A password that does not match the stored hash gives the very same
        error, so an unknown email and a wrong password cannot be told apart. */
    lemma LoginWrongPassword(email: string, password: string, appId: int, hasher: Bcrypt.Hasher, now: int,
                             appQuery: Fault, signing: Option<string>)
      requires storage.Valid() && UserByEmail(storage.db, email).Some?
      requires !hasher.compare(UserByEmail(storage.db, email).value.passHash, password)
      ensures Login(email, password, appId, hasher, now, Healthy, appQuery, signing) == Err(InvalidCredentialsError)
    {
    }

    /** The app is looked up only once the password matched: until then the
        outcome does not depend on the app id, the app lookup, the clock or
        the signer. */
    lemma LoginChecksPasswordBeforeApp(email: string, password: string, hasher: Bcrypt.Hasher, userQuery: Fault,
                                       appId1: int, now1: int, appQuery1: Fault, signing1: Option<string>,
                                       appId2: int, now2: int, appQuery2: Fault, signing2: Option<string>)
      requires storage.Valid()
      requires storage.User(email, userQuery).Err? || !hasher.compare(storage.User(email, userQuery).value.passHash, password)
      ensures Login(email, password, appId1, hasher, now1, userQuery, appQuery1, signing1)
           == Login(email, password, appId2, hasher, now2, userQuery, appQuery2, signing2)
    {
    }

    /** Once the password matched, an app lookup failure is passed on wrapped
        and unchanged: an unknown app is `ErrAppNotFound`, never
        `ErrInvalidCredentials`. */
    lemma LoginAppFailurePropagates(email: string, password: string, appId: int, hasher: Bcrypt.Hasher, now: int,
                                    appQuery: Fault, signing: Option<string>)
      requires storage.Valid() && UserByEmail(storage.db, email).Some?
      requires hasher.compare(UserByEmail(storage.db, email).value.passHash, password)
      requires storage.App(appId, appQuery).Err?
      ensures Login(email, password, appId, hasher, now, Healthy, appQuery, signing)
           == Err(Wrapped(LoginOp, storage.App(appId, appQuery).error))
      ensures !Is(Login(email, password, appId, hasher, now, Healthy, appQuery, signing).error, InvalidCredentials)
      ensures appQuery.Healthy? ==>
                Is(Login(email, password, appId, hasher, now, Healthy, appQuery, signing).error, StorageAppNotFound)
    {
    }

    /** Any other failure of the user lookup is passed on, wrapped. */
    lemma LoginUserLookupFailurePropagates(email: string, password: string, appId: int, hasher: Bcrypt.Hasher,
                                           now: int, userQuery: Fault, appQuery: Fault, signing: Option<string>)
      requires storage.Valid() && !userQuery.Healthy?
      ensures Login(email, password, appId, hasher, now, userQuery, appQuery, signing)
           == Err(Wrapped(LoginOp, storage.User(email, userQuery).error))
      ensures forall k :: !Is(Login(email, password, appId, hasher, now, userQuery, appQuery, signing).error, k)
    {
    }

    /** With a healthy store and signer, a stored user with a matching password
        and an existing app always gets a token. */
    lemma LoginSucceeds(email: string, password: string, appId: int, hasher: Bcrypt.Hasher, now: int)
      requires storage.Valid() && UserByEmail(storage.db, email).Some? && appId in storage.db.apps
      requires hasher.compare(UserByEmail(storage.db, email).value.passHash, password)
      ensures Login(email, password, appId, hasher, now, Healthy, Healthy, None).Ok?
    {
    }

    /** When everything else succeeds but the signer fails, its error is passed
        on wrapped, matching no sentinel; it is not reported as bad credentials. */
    lemma LoginSigningFailurePropagates(email: string, password: string, appId: int, hasher: Bcrypt.Hasher,
                                        now: int, message: string)
      requires storage.Valid() && UserByEmail(storage.db, email).Some? && appId in storage.db.apps
      requires hasher.compare(UserByEmail(storage.db, email).value.passHash, password)
      ensures Login(email, password, appId, hasher, now, Healthy, Healthy, Some(message))
              == Err(Wrapped(LoginOp, Text(message)))
      ensures forall k :: !Is(Login(email, password, appId, hasher, now, Healthy, Healthy, Some(message)).error, k)
    {
    }

    /** Registers a user: the password is hashed first and only the hash is
        saved. A taken email becomes `ErrUserExists`; a hashing or saving error
        is passed on wrapped; on success the id the store handed out is
        returned unchanged. */
    method RegisterNewUser(email: string, password: string, hasher: Bcrypt.Hasher, saveFault: Fault)
        returns (r: Result<int, Error>)
      requires storage.Valid()
      modifies storage
      ensures storage.Valid()
      ensures hasher.generate(password).Err? ==>
                r == Err(Wrapped(RegisterOp, hasher.generate(password).error)) && storage.db == old(storage.db)
      ensures hasher.generate(password).Ok? ==>
                var hash := hasher.generate(password).value;
                && (saveFault.PrepareFailed? ==>
                      r == Err(Wrapped(RegisterOp, Wrapped(Postgres.SaveUserOp, Text(saveFault.message))))
                      && storage.db == old(storage.db))
                && (saveFault.QueryFailed? ==> r == Ok(0) && storage.db == old(storage.db))
                && (saveFault.Healthy? && UserByEmail(old(storage.db), email).Some? ==>
                      r == Err(Wrapped(RegisterOp, Sentinel(UserExists))) && storage.db == old(storage.db))
                && (saveFault.Healthy? && UserByEmail(old(storage.db), email).None? ==>
                      && r == Ok(old(storage.db).nextUserId)
                      && storage.db == InsertUser(old(storage.db), email, hash)
                      && UserByEmail(storage.db, email) == Some(Models.User(r.value, email, hash, [])))
    {
      match hasher.generate(password)
      case Err(e) =>
        return Err(Wrapped(RegisterOp, e));
      case Ok(hash) =>
        var saved := storage.SaveUser(email, hash, saveFault);
        match saved
        case Err(e) =>
          if Is(e, StorageUserExist) {
            return Err(Wrapped(RegisterOp, Sentinel(UserExists)));
          }
          return Err(Wrapped(RegisterOp, e));
        case Ok(id) =>
          return Ok(id);
    }

    /** Whether the user with that id is an admin. Only `ErrAppNotFound` is
        translated (to `ErrInvalidCredentials`); `ErrUserNotFound` from the
        store is passed on as it is. */
    function IsAdmin(userId: int, fault: Fault): (r: Result<bool, Error>)
      reads storage
      ensures r.Ok? <==> fault.Healthy? && userId in storage.db.users
      ensures r.Ok? ==> r.value == storage.db.users[userId].isAdmin
      ensures fault.Healthy? && userId !in storage.db.users ==>
                r == Err(Wrapped(IsAdminOp, Sentinel(StorageUserNotFound)))
      ensures r.Err? ==> !Is(r.error, UserNotFound)
      ensures !fault.Healthy? ==>
                && r == Err(Wrapped(IsAdminOp, storage.IsAdmin(userId, fault).error))
                && forall k :: !Is(r.error, k)
    {
      match storage.IsAdmin(userId, fault)
      case Err(e) => Err(IsAdminError(e))
      case Ok(flag) => Ok(flag)
    }

    /** The `ErrInvalidCredentials` branch of IsAdmin cannot fire: the store's
        IsAdmin never reports `ErrAppNotFound`. */
    lemma IsAdminNeverInvalidCredentials(userId: int, fault: Fault)
      ensures IsAdmin(userId, fault).Err? ==> !Is(IsAdmin(userId, fault).error, InvalidCredentials)
    {
    }

    /** IsAdmin as evidently intended: the store's `ErrUserNotFound` becomes
        the service's `ErrUserNotFound`, which the transport reports as
        NotFound. */
    function IsAdminTranslated(userId: int, fault: Fault): (r: Result<bool, Error>)
      reads storage
      ensures r.Ok? <==> fault.Healthy? && userId in storage.db.users
      ensures r.Ok? ==> r.value == storage.db.users[userId].isAdmin
      ensures r.Err? ==> (Is(r.error, UserNotFound) <==> fault.Healthy? && userId !in storage.db.users)
    {
      match storage.IsAdmin(userId, fault)
      case Err(e) =>
        if Is(e, StorageUserNotFound) then Err(Wrapped(IsAdminOp, Sentinel(UserNotFound)))
        else Err(Wrapped(IsAdminOp, e))
      case Ok(flag) => Ok(flag)
    }

    /** Creates an app. A taken name becomes `ErrAppExist`; other errors are
        passed on wrapped; on success the id the store handed out is returned. */
    method CreateApp(name: string, secret: string, saveFault: Fault) returns (r: Result<int, Error>)
      requires storage.Valid()
      modifies storage
      ensures storage.Valid()
      ensures !saveFault.Healthy? ==>
                r == Err(Wrapped(CreateAppOp, Wrapped(Postgres.SaveAppOp, Text(saveFault.message))))
                && storage.db == old(storage.db)
      ensures saveFault.Healthy? && HasAppNamed(old(storage.db), name) ==>
                r == Err(Wrapped(CreateAppOp, Sentinel(AppExist))) && storage.db == old(storage.db)
      ensures saveFault.Healthy? && !HasAppNamed(old(storage.db), name) ==>
                && r == Ok(old(storage.db).nextAppId)
                && storage.db == InsertApp(old(storage.db), name, secret)
                && storage.App(r.value, Healthy) == Ok(Models.App(r.value, name, secret))
    {
      var saved := storage.SaveApp(name, secret, saveFault);
      match saved
      case Err(e) =>
        if Is(e, StorageAppExist) {
          return Err(Wrapped(CreateAppOp, Sentinel(AppExist)));
        }
        return Err(Wrapped(CreateAppOp, e));
      case Ok(id) =>
        return Ok(id);
    }
  }
}
