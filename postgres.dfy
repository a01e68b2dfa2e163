/** The PostgreSQL storage adapter: `Storage` holds the database handle, here
    the database contents themselves, and each method turns what the driver
    reports into the results and sentinel errors the service relies on,
    including the errors this adapter swallows. */
module Postgres {
  import opened Wrappers
  import opened Errors
  import opened Models
  import opened Tables

  const SaveUserOp := "storage.postgres.SaveUser"
  const UserOp := "storage.postgresql.User"
  const AppOp := "storage.postgresql.App"
  const IsAdminOp := "storage.postgresql.IsAdmin"
  const SaveAppOp := "storage.postgresql.CreateApp"
  const SetRolesOp := "storage.postgresql.SetRoles"
  const GetRolesOp := "storage.postgresql.GetRoles"

  class Storage {
    var db: Db

    ghost predicate Valid()
      reads this
    {
      Tables.Valid(db)
    }

    /** `NewDB` once the connection is open: the adapter over the database as
        it stands. */
    constructor (db: Db)
      requires Tables.Valid(db)
      ensures Valid() && this.db == db
    {
      this.db := db;
    }

    /** Inserts a user. A taken email (unique violation) gives
        `ErrUserExist`; any other error from running the statement is
        swallowed, and the call reports success with id 0. */
    method SaveUser(email: string, passHash: Bytes, fault: Fault) returns (r: Result<int, Error>)
      requires Valid()
      modifies this
      ensures Valid()
      ensures fault.PrepareFailed? ==> r == Err(Wrapped(SaveUserOp, Text(fault.message))) && db == old(db)
      ensures fault.QueryFailed? ==> r == Ok(0) && db == old(db)
      ensures fault.Healthy? && UserByEmail(old(db), email).Some? ==>
                r == Err(Sentinel(StorageUserExist)) && db == old(db)
      ensures fault.Healthy? && UserByEmail(old(db), email).None? ==>
                r == Ok(old(db).nextUserId) && db == InsertUser(old(db), email, passHash)
      ensures r.Err? ==> (Is(r.error, StorageUserExist) <==> fault.Healthy?)
    {
      match fault
      case PrepareFailed(message) =>
        return Err(Wrapped(SaveUserOp, Text(message)));
      case QueryFailed(_) =>
        // the error is neither returned nor logged: `id` keeps its zero value
        return Ok(0);
      case Healthy =>
        if email in db.emailIndex {
          return Err(Sentinel(StorageUserExist));
        }
        var id := db.nextUserId;
        db := InsertUser(db, email, passHash);
        return Ok(id);
    }

    /** The user with that email, with its id, hash and roles. */
    function User(email: string, fault: Fault): (r: Result<Models.User, Error>)
      reads this
      requires Valid()
      ensures r.Ok? <==> fault.Healthy? && UserByEmail(db, email).Some?
      ensures r.Ok? ==> r.value == UserByEmail(db, email).value
      ensures fault.Healthy? && UserByEmail(db, email).None? ==> r == Err(Sentinel(StorageUserNotFound))
      ensures !fault.Healthy? ==> r.Err? && forall k :: !Is(r.error, k)
    {
      match fault
      case PrepareFailed(message) => Err(Flatten(UserOp, message))
      case QueryFailed(message) => Err(Flatten(UserOp, message))
      case Healthy =>
        match UserByEmail(db, email)
        case None => Err(Sentinel(StorageUserNotFound))
        case Some(user) => Ok(user)
    }

    /** The app with that id. */
    function App(appId: int, fault: Fault): (r: Result<Models.App, Error>)
      reads this
      ensures r.Ok? <==> fault.Healthy? && appId in db.apps
      ensures r.Ok? ==> r.value == Models.App(appId, db.apps[appId].name, db.apps[appId].secret)
      ensures fault.Healthy? && appId !in db.apps ==> r == Err(Sentinel(StorageAppNotFound))
      ensures !fault.Healthy? ==> r.Err? && forall k :: !Is(r.error, k)
    {
      match fault
      case PrepareFailed(message) => Err(Flatten(AppOp, message))
      case QueryFailed(message) => Err(Flatten(AppOp, message))
      case Healthy =>
        match AppById(db, appId)
        case None => Err(Sentinel(StorageAppNotFound))
        case Some(app) => Ok(app)
    }

    /** The `is_admin` flag of the user with that id. An absent id gives
        `ErrUserNotFound`, never `ErrAppNotFound`. */
    function IsAdmin(userId: int, fault: Fault): (r: Result<bool, Error>)
      reads this
      ensures r.Ok? <==> fault.Healthy? && userId in db.users
      ensures r.Ok? ==> r.value == db.users[userId].isAdmin
      ensures fault.Healthy? && userId !in db.users ==> r == Err(Sentinel(StorageUserNotFound))
      ensures r.Err? ==> !Is(r.error, StorageAppNotFound)
      ensures !fault.Healthy? ==> r.Err? && forall k :: !Is(r.error, k)
    {
      match fault
      case PrepareFailed(message) => Err(Flatten(IsAdminOp, message))
      case QueryFailed(message) => Err(Flatten(IsAdminOp, message))
      case Healthy =>
        match AdminFlag(db, userId)
        case None => Err(Sentinel(StorageUserNotFound))
        case Some(flag) => Ok(flag)
    }

    /** Inserts an app. A taken name gives `ErrAppExist`; other errors are
        wrapped. */
    method SaveApp(name: string, secret: string, fault: Fault) returns (r: Result<int, Error>)
      requires Valid()
      modifies this
      ensures Valid()
      ensures fault.PrepareFailed? ==> r == Err(Wrapped(SaveAppOp, Text(fault.message))) && db == old(db)
      ensures fault.QueryFailed? ==> r == Err(Wrapped(SaveAppOp, Text(fault.message))) && db == old(db)
      ensures fault.Healthy? && HasAppNamed(old(db), name) ==> r == Err(Sentinel(StorageAppExist)) && db == old(db)
      ensures fault.Healthy? && !HasAppNamed(old(db), name) ==>
                r == Ok(old(db).nextAppId) && db == InsertApp(old(db), name, secret)
      ensures r.Err? ==> (Is(r.error, StorageAppExist) <==> fault.Healthy?)
    {
      match fault
      case PrepareFailed(message) =>
        return Err(Wrapped(SaveAppOp, Text(message)));
      case QueryFailed(message) =>
        return Err(Wrapped(SaveAppOp, Text(message)));
      case Healthy =>
        if HasAppNamed(db, name) {
          return Err(Sentinel(StorageAppExist));
        }
        var id := db.nextAppId;
        db := InsertApp(db, name, secret);
        return Ok(id);
    }

    /** Replaces the roles of the user with that email. An UPDATE that matches
        no row is not an error, so an absent email changes nothing and gives
        nil: the `sql.ErrNoRows` branch never fires and `ErrUserNotFound` is
        never returned. */
    method SetRoles(email: string, roles: seq<string>, fault: Fault) returns (err: Option<Error>)
      requires Valid()
      modifies this
      ensures Valid()
      ensures fault.Healthy? ==> err == None && db == UpdateRoles(old(db), email, roles)
      ensures !fault.Healthy? ==> err == Some(Wrapped(SetRolesOp, Text(fault.message))) && db == old(db)
      ensures err.Some? ==> !Is(err.value, StorageUserNotFound)
    {
      match fault
      case PrepareFailed(message) =>
        return Some(Wrapped(SetRolesOp, Text(message)));
      case QueryFailed(message) =>
        return Some(Wrapped(SetRolesOp, Text(message)));
      case Healthy =>
        db := UpdateRoles(db, email, roles);
        return None;
    }

    /** The roles of the user with that email. The source scans into `roles`
        by value (posgresql.go:182), which the driver refuses; the model gives
        the result the tests expect, the stored list. */
    function GetRoles(email: string, fault: Fault): (r: Result<seq<string>, Error>)
      reads this
      requires Valid()
      ensures r.Ok? <==> fault.Healthy? && UserByEmail(db, email).Some?
      ensures r.Ok? ==> r.value == UserByEmail(db, email).value.roles
      ensures fault.Healthy? && UserByEmail(db, email).None? ==> r == Err(Sentinel(StorageUserNotFound))
      ensures !fault.Healthy? ==> r.Err? && forall k :: !Is(r.error, k)
    {
      match fault
      case PrepareFailed(message) => Err(Wrapped(GetRolesOp, Text(message)))
      case QueryFailed(message) => Err(Flatten(GetRolesOp, message))
      case Healthy =>
        match RolesByEmail(db, email)
        case None => Err(Sentinel(StorageUserNotFound))
        case Some(roles) => Ok(roles)
    }
  }

  /** The round trip of get_set_roles_test.go: once a user is saved, setting
      its roles and reading them back gives exactly those roles, and the other
      users keep theirs. */
  method SetThenGetRoles(s: Storage, email: string, passHash: Bytes, roles: seq<string>)
      returns (got: Result<seq<string>, Error>)
    requires s.Valid()
    modifies s
    ensures s.Valid()
    ensures got == Ok(roles)
    ensures forall e | e != email :: RolesByEmail(s.db, e) == RolesByEmail(old(s.db), e)
  {
    var _ := s.SaveUser(email, passHash, Healthy);
    var err := s.SetRoles(email, roles, Healthy);
    assert RolesByEmail(s.db, email) == Some(roles);
    got := s.GetRoles(email, Healthy);
  }
}
