/** The SQLite storage adapter. It reads and writes the same tables as the
    PostgreSQL one but handles driver errors differently: insert errors are
    returned with their text only, and errors while reading a row are
    swallowed, so the caller gets zero values and no error. It has no SaveApp,
    SetRoles or GetRoles. */
module Sqlite {
  import opened Wrappers
  import opened Errors
  import opened Models
  import opened Tables
  import Postgres

  const SaveUserOp := "storage.sqlite.SaveUser"
  const UserOp := "storage.sqlite.User"
  const AppOp := "storage.sqlite.App"
  const IsAdminOp := "storage.sqlite.IsAdmin"

  class Storage {
    var db: Db

    ghost predicate Valid()
      reads this
    {
      Tables.Valid(db)
    }

    /** `NewStorage` once the file is open: the adapter over the database as
        the migrations left it. */
    constructor (db: Db)
      requires Tables.Valid(db)
      ensures Valid() && this.db == db
    {
      this.db := db;
    }

    /** Inserts a user and returns its row id. A unique violation gives
        `ErrUserExist`; other errors come back as text with id 0, including a
        failure of `LastInsertId` after the row was written. */
    method SaveUser(email: string, passHash: Bytes, fault: Fault, lastInsertId: Option<string>)
        returns (r: Result<int, Error>)
      requires Valid()
      modifies this
      ensures Valid()
      ensures fault.PrepareFailed? ==> r == Err(Wrapped(SaveUserOp, Text(fault.message))) && db == old(db)
      ensures fault.QueryFailed? ==> r == Err(Flatten(SaveUserOp, fault.message)) && db == old(db)
      ensures fault.Healthy? && UserByEmail(old(db), email).Some? ==>
                r == Err(Sentinel(StorageUserExist)) && db == old(db)
      ensures fault.Healthy? && UserByEmail(old(db), email).None? ==>
                && db == InsertUser(old(db), email, passHash)
                && r == match lastInsertId
                        case None => Ok(old(db).nextUserId)
                        case Some(message) => Err(Flatten(SaveUserOp, message))
    {
      match fault
      case PrepareFailed(message) =>
        return Err(Wrapped(SaveUserOp, Text(message)));
      case QueryFailed(message) =>
        return Err(Flatten(SaveUserOp, message));
      case Healthy =>
        if email in db.emailIndex {
          return Err(Sentinel(StorageUserExist));
        }
        var id := db.nextUserId;
        db := InsertUser(db, email, passHash);
        match lastInsertId
        case Some(message) =>
          return Err(Flatten(SaveUserOp, message));
        case None =>
          return Ok(id);
    }

    /** The user with that email. Only id, email and hash are selected, so the
        roles are always empty; a failed query yields the zero user and no error. */
    function User(email: string, fault: Fault): (r: Result<Models.User, Error>)
      reads this
      requires Valid()
      ensures r.Ok? ==> r.value.roles == []
      ensures r.Err? <==> fault.PrepareFailed? || (fault.Healthy? && UserByEmail(db, email).None?)
      ensures fault.Healthy? && UserByEmail(db, email).Some? ==>
                r == Ok(UserByEmail(db, email).value.(roles := []))
      ensures fault.Healthy? && UserByEmail(db, email).None? ==> r == Err(Sentinel(StorageUserNotFound))
      ensures fault.QueryFailed? ==> r == Ok(ZeroUser)
      ensures fault.PrepareFailed? ==> r.Err? && forall k :: !Is(r.error, k)
    {
      match fault
      case PrepareFailed(message) => Err(Flatten(UserOp, message))
      case QueryFailed(_) => Ok(ZeroUser)
      case Healthy =>
        match UserByEmail(db, email)
        case None => Err(Sentinel(StorageUserNotFound))
        case Some(user) => Ok(Models.User(user.id, user.email, user.passHash, []))
    }

    /** The app with that id; a failed query yields the zero app and no error. */
    function App(appId: int, fault: Fault): (r: Result<Models.App, Error>)
      reads this
      ensures r.Err? <==> fault.PrepareFailed? || (fault.Healthy? && appId !in db.apps)
      ensures fault.Healthy? && appId in db.apps ==>
                r == Ok(Models.App(appId, db.apps[appId].name, db.apps[appId].secret))
      ensures fault.Healthy? && appId !in db.apps ==> r == Err(Sentinel(StorageAppNotFound))
      ensures fault.QueryFailed? ==> r == Ok(ZeroApp)
      ensures fault.PrepareFailed? ==> r.Err? && forall k :: !Is(r.error, k)
    {
      match fault
      case PrepareFailed(message) => Err(Flatten(AppOp, message))
      case QueryFailed(_) => Ok(ZeroApp)
      case Healthy =>
        match AppById(db, appId)
        case None => Err(Sentinel(StorageAppNotFound))
        case Some(app) => Ok(app)
    }

    /** The `is_admin` flag of the user with that id; a failed query yields
        false and no error. */
    function IsAdmin(userId: int, fault: Fault): (r: Result<bool, Error>)
      reads this
      ensures r.Err? <==> fault.PrepareFailed? || (fault.Healthy? && userId !in db.users)
      ensures fault.Healthy? && userId in db.users ==> r == Ok(db.users[userId].isAdmin)
      ensures fault.Healthy? && userId !in db.users ==> r == Err(Sentinel(StorageUserNotFound))
      ensures fault.QueryFailed? ==> r == Ok(false)
      ensures fault.PrepareFailed? ==> r.Err? && forall k :: !Is(r.error, k)
    {
      match fault
      case PrepareFailed(message) => Err(Flatten(IsAdminOp, message))
      case QueryFailed(_) => Ok(false)
      case Healthy =>
        match AdminFlag(db, userId)
        case None => Err(Sentinel(StorageUserNotFound))
        case Some(flag) => Ok(flag)
    }
  }

  /** Over the same tables and a database that answers, the two adapters
      agree on every lookup, except that SQLite drops the roles. */
  lemma AgreesWithPostgresWhenHealthy(s: Storage, p: Postgres.Storage, email: string, appId: int, userId: int)
    requires s.Valid() && p.Valid() && s.db == p.db
    ensures p.User(email, Healthy).Ok? ==> s.User(email, Healthy) == Ok(p.User(email, Healthy).value.(roles := []))
    ensures p.User(email, Healthy).Err? ==> s.User(email, Healthy) == p.User(email, Healthy)
    ensures s.App(appId, Healthy) == p.App(appId, Healthy)
    ensures s.IsAdmin(userId, Healthy) == p.IsAdmin(userId, Healthy)
  {
  }
}
