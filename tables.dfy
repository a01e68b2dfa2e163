/** The contents of the database both storage adapters talk to: the `users`
    table (primary key `id`, unique `email`) and the `apps` table (primary key
    `id`, unique `name`), and what the SQL statements of the adapters do to
    them when the database answers. Schema migrations are not part of this
    model; a new user row is taken to start with no roles and `is_admin` false. */
module Tables {
  import opened Wrappers
  import opened Models

  datatype UserRow = UserRow(email: string, passHash: Bytes, roles: seq<string>, isAdmin: bool)

  datatype AppRow = AppRow(name: string, secret: string)

  /** `emailIndex` is the unique index on `users.email`; `nextUserId` and
      `nextAppId` are the values the two id sequences hand out next. */
  datatype Db = Db(
    users: map<int, UserRow>,
    emailIndex: map<string, int>,
    apps: map<int, AppRow>,
    nextUserId: int,
    nextAppId: int)

  /** How a call to the driver went: the database answered (`Healthy`),
      preparing the statement failed, or running it failed with an error other
      than "no rows" and the unique violation, which the tables decide. */
  datatype Fault = Healthy | PrepareFailed(message: string) | QueryFailed(message: string)

  /** Every email names one user row and every row is named by its email; ids
      are positive and below the next id; app names are unique. */
  ghost predicate Valid(db: Db)
  {
    && 0 < db.nextUserId
    && 0 < db.nextAppId
    && (forall id | id in db.users :: 0 < id < db.nextUserId)
    && (forall e | e in db.emailIndex :: db.emailIndex[e] in db.users && db.users[db.emailIndex[e]].email == e)
    && (forall id | id in db.users :: db.users[id].email in db.emailIndex && db.emailIndex[db.users[id].email] == id)
    && (forall id | id in db.apps :: 0 < id < db.nextAppId)
    && (forall i, j | i in db.apps && j in db.apps && db.apps[i].name == db.apps[j].name :: i == j)
  }

  /** `SELECT id, email, password_hash, roles FROM users WHERE email = $1`. */
  function UserByEmail(db: Db, email: string): (r: Option<User>)
    requires Valid(db)
    ensures r.Some? <==> exists id | id in db.users :: db.users[id].email == email
    ensures r.Some? ==>
              && r.value.id in db.users && r.value.email == email
              && r.value.passHash == db.users[r.value.id].passHash && r.value.roles == db.users[r.value.id].roles
    ensures forall id | id in db.users && db.users[id].email == email :: r == Some(User(id, email, db.users[id].passHash, db.users[id].roles))
  {
    if email in db.emailIndex then
      var id := db.emailIndex[email];
      var row := db.users[id];
      Some(User(id, email, row.passHash, row.roles))
    else
      None
  }

  /** `SELECT is_admin FROM users WHERE id = $1`: the flag of the row with that
      id, the same user an email lookup of that row's email finds. */
  function AdminFlag(db: Db, userId: int): (r: Option<bool>)
    ensures r.Some? <==> userId in db.users
    ensures r.Some? ==> r.value == db.users[userId].isAdmin
    ensures Valid(db) && r.Some? ==>
              && UserByEmail(db, db.users[userId].email).Some?
              && UserByEmail(db, db.users[userId].email).value.id == userId
  {
    if userId in db.users then Some(db.users[userId].isAdmin) else None
  }

  /** `SELECT roles FROM users WHERE email = $1`. */
  function RolesByEmail(db: Db, email: string): (r: Option<seq<string>>)
    requires Valid(db)
    ensures r.Some? <==> UserByEmail(db, email).Some?
    ensures r.Some? ==> r.value == UserByEmail(db, email).value.roles
  {
    if email in db.emailIndex then Some(db.users[db.emailIndex[email]].roles) else None
  }

  /** `SELECT id, name, secret FROM apps WHERE id = $1`: the app stored under
      that id, which is the only app with its name. */
  function AppById(db: Db, appId: int): (r: Option<App>)
    ensures r.Some? <==> appId in db.apps
    ensures r.Some? ==> r.value.id == appId && db.apps[appId] == AppRow(r.value.name, r.value.secret)
    ensures Valid(db) && r.Some? ==>
              && 0 < appId && HasAppNamed(db, r.value.name)
              && forall id | id in db.apps && db.apps[id].name == r.value.name :: id == appId
  {
    if appId in db.apps then Some(App(appId, db.apps[appId].name, db.apps[appId].secret)) else None
  }

  /** Whether `INSERT INTO apps` of `name` violates the unique name. */
  predicate HasAppNamed(db: Db, name: string)
  {
    exists id | id in db.apps :: db.apps[id].name == name
  }

  /** `INSERT INTO users (email, password_hash) ... RETURNING id` of an email
      not yet present: one new row, with a fresh id, and nothing else changed. */
  function InsertUser(db: Db, email: string, passHash: Bytes): (db': Db)
    requires Valid(db) && UserByEmail(db, email).None?
    ensures Valid(db')
    ensures db.nextUserId !in db.users && 0 < db.nextUserId
    ensures db'.users == db.users[db.nextUserId := UserRow(email, passHash, [], false)]
    ensures UserByEmail(db', email) == Some(User(db.nextUserId, email, passHash, []))
    ensures forall e | e != email :: UserByEmail(db', e) == UserByEmail(db, e)
    ensures db'.apps == db.apps && db'.nextAppId == db.nextAppId
  {
    var id := db.nextUserId;
    var db' := db.(users := db.users[id := UserRow(email, passHash, [], false)],
                   emailIndex := db.emailIndex[email := id],
                   nextUserId := id + 1);
    assert forall e | e in db'.emailIndex && e != email :: db'.emailIndex[e] == db.emailIndex[e];
    db'
  }

  /** `INSERT INTO apps (name, secret) ... RETURNING id` of a name not yet
      present: one new row, with a fresh id, and nothing else changed. */
  function InsertApp(db: Db, name: string, secret: string): (db': Db)
    requires Valid(db) && !HasAppNamed(db, name)
    ensures Valid(db')
    ensures db.nextAppId !in db.apps && 0 < db.nextAppId
    ensures AppById(db', db.nextAppId) == Some(App(db.nextAppId, name, secret))
    ensures forall id | id != db.nextAppId :: AppById(db', id) == AppById(db, id)
    ensures HasAppNamed(db', name)
    ensures db'.users == db.users && db'.emailIndex == db.emailIndex && db'.nextUserId == db.nextUserId
  {
    db.(apps := db.apps[db.nextAppId := AppRow(name, secret)], nextAppId := db.nextAppId + 1)
  }

  /** `UPDATE users SET roles = $1 WHERE email = $2`: replaces the whole roles
      list of the row with that email, if there is one, and nothing else. */
  function UpdateRoles(db: Db, email: string, roles: seq<string>): (db': Db)
    requires Valid(db)
    ensures Valid(db')
    ensures RolesByEmail(db', email) == if UserByEmail(db, email).Some? then Some(roles) else None
    ensures UserByEmail(db, email).None? ==> db' == db
    ensures db'.users.Keys == db.users.Keys && db'.emailIndex == db.emailIndex
    ensures forall id | id in db.users ::
              db'.users[id] == if db.users[id].email == email then db.users[id].(roles := roles) else db.users[id]
    ensures db'.apps == db.apps && db'.nextUserId == db.nextUserId && db'.nextAppId == db.nextAppId
  {
    if email in db.emailIndex then
      var id := db.emailIndex[email];
      db.(users := db.users[id := db.users[id].(roles := roles)])
    else
      db
  }
}
