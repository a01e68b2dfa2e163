# SSO-gRPC identity service — a Dafny model

This project models the core of a small single-sign-on service written in Go:

- the authentication service (`Login`, `RegisterNewUser`, `IsAdmin`, `CreateApp`) and its sentinel errors;
- the gRPC handlers that validate requests and map service errors to status codes;
- the PostgreSQL storage adapter, which is the one the application wires in;
- the SQLite storage adapter, which is not wired in.

The model keeps the code's decisions. It has the same branches, the same order of checks, the same sentinel errors and the same operation names in wrapped errors. It also keeps the code's defects, including the errors each storage adapter swallows. Two driver-level faults are the exception. They are the by-value scan of `GetRoles` and the unconverted roles argument of `SetRoles`; the model gives their tested behaviour, and "Left out" lists both.

## How the model is organised

| file | module | what it holds |
|---|---|---|
| `wrappers.dfy` | `Wrappers` | `Option`, and `Result` for Go's `(value, error)` pairs. `Err` stands for a non-nil error; the value beside it is Go's zero value. |
| `errors.dfy` | `Errors` | Go error values. `Sentinel(kind)` is a package-level `errors.New` value. `Wrapped(op, cause)` is `fmt.Errorf("%s: %w", …)`. `Text(msg)` is a driver error, or an error rebuilt with `"%s: %s"`, which cuts the chain. `Is` is `errors.Is`. |
| `models.dfy` | `Models` | `models.User` and `models.App` (that package is not part of this model), and their zero values. |
| `bcrypt.dfy` | `Bcrypt` | The hashing library as a parameter: a `generate` and a `compare` function. |
| `jwt.dfy` | `Jwt` | `jwtlocal.NewToken` as a claims record `{uid, email, app_id, roles, exp}` with a symbolic signature `Hmac(key, claims)`, and the verification the tests do. `exp` is the claim of section 4.1.4 of RFC 7519. |
| `tables.dfy` | `Tables` | The database contents as a value: `users` by id with a unique email index, `apps` by id with unique names, and the two id sequences. It also gives what each SQL statement does when the database answers. `Fault` says how a driver call went. |
| `postgres.dfy` | `Postgres` | `class Storage` holding the database (`var db`). Its methods insert and update in place; its functions are the read-only queries. |
| `sqlite.dfy` | `Sqlite` | The same for the SQLite adapter, with its own error handling. |
| `auth.dfy` | `AuthService` | `class Auth` over a `Postgres.Storage`, with `tokenTTL`. `Login` and `IsAdmin` are functions of the store state; `RegisterNewUser` and `CreateApp` are methods that change it. |
| `format.dfy` | `Format` | `fmt`'s `%d`, used in one status message, and its inverse. |
| `server.dfy` | `Server` | The handlers. Each is a pure function of the request and of the result the service returns for the request's fields. |
| `end_to_end.dfy` | `EndToEnd` | Handlers composed with the service: what a client observes, including the scenarios of the integration tests. |

Inputs the Go code gets from outside are explicit parameters:

- the clock (`now`, Unix seconds);
- the token lifetime (`tokenTTL`). `internal/app/app.go:25` passes the gRPC timeout here, while the tests compare against the configured token TTL;
- how each driver call went (`Fault`, plus SQLite's `LastInsertId` failure);
- a signing failure of the token library;
- the bcrypt functions.

## Model

| member | source | states |
|---|---|---|
| `Errors.Is` | internal/grps/auth/server.go:44 | `errors.Is`: a sentinel matches itself, and an error carrying only driver text matches no sentinel. |
| `Errors.IsMatchesOneSentinel` | internal/grps/auth/server.go:44 | An error matches at most one sentinel, however deeply it is wrapped. |
| `Errors.Cause` | internal/grps/auth/server.go:44 | `errors.Is` holds for a sentinel exactly when the innermost error of the wrap chain is that sentinel. |
| `Errors.Flatten` | internal/storage/postgresql/posgresql.go:80 | An error rebuilt from its text with `"%s: %s"` matches no sentinel. |
| `Jwt.NewToken` | internal/services/auth/auth.go:97-101 | A token is issued exactly when the signer reports no error; otherwise the signer's error is returned. |
| `Jwt.Verify` | tests/jwt_test.go:43-48 | A token is accepted exactly when its signature recomputes with the key and the current second is before `exp`; it then yields the token's own claims. A correctly signed token is rejected as expired exactly from `exp` on. |
| `Jwt.IssuedTokenVerifies` | tests/jwt_test.go:39-68 | An issued token verifies with the app's secret at every second from its issue time up to, not including, issue time plus TTL. Its claims are exactly the user's id, email and roles, the app's id, and issue time plus TTL. |
| `Jwt.IssuedTokenRejected` | tests/jwt_test.go:43-48 | An issued token is rejected under any other key, and as expired at every second from issue time plus TTL on. |
| `Tables.UserByEmail` | internal/storage/postgresql/posgresql.go:70-85 | A user is found exactly when some row has that email. It is that row, the only one, with its id, hash and roles. |
| `Tables.AdminFlag` | internal/storage/postgresql/posgresql.go:116-131 | A flag is found exactly when a row has that id, and it is that row's `is_admin`. Over valid tables, that row is the user an email lookup of its email finds. |
| `Tables.AppById` | internal/storage/postgresql/posgresql.go:93-108 | An app is found exactly when that id is stored, with the stored name and secret. Over valid tables, its id is positive and it is the only app with its name. |
| `Tables.RolesByEmail` | internal/storage/postgresql/posgresql.go:176-190 | The roles are found exactly when the user is, and they are that user's roles. |
| `Tables.InsertUser` | internal/storage/postgresql/posgresql.go:47-61 | Inserting a new email keeps the tables valid. It adds one row under a fresh positive id; that row is found by its email with no roles. Every other email finds what it found before, and apps are untouched. |
| `Tables.InsertApp` | internal/storage/postgresql/posgresql.go:137-151 | Inserting a new name keeps names unique. It adds one app under a fresh positive id, leaves every other id as it was, and leaves users untouched. |
| `Tables.UpdateRoles` | internal/storage/postgresql/posgresql.go:157-170 | Updating the roles replaces the whole list of the row with that email, so reading them back gives exactly the new list. No other row or column changes. An absent email changes nothing. |
| `Postgres.Storage.constructor` | internal/storage/postgresql/posgresql.go:24-42 | The adapter starts over valid tables. |
| `Postgres.Storage.SaveUser` | internal/storage/postgresql/posgresql.go:44-62 | A taken email gives `ErrUserExist` and leaves the tables unchanged. A new email inserts one row and returns its id. A prepare error is wrapped. Any other query error is swallowed: the result is id 0 with no error, and nothing is stored. Only the duplicate case matches `ErrUserExist`. |
| `Postgres.Storage.User` | internal/storage/postgresql/posgresql.go:64-86 | Succeeds exactly for a stored email on a healthy database, returning that row. An absent email gives `ErrUserNotFound`. Driver errors come back as text matching no sentinel. |
| `Postgres.Storage.App` | internal/storage/postgresql/posgresql.go:88-109 | Succeeds exactly for a stored id, returning its id, name and secret. An absent id gives `ErrAppNotFound`. Driver errors match no sentinel. |
| `Postgres.Storage.IsAdmin` | internal/storage/postgresql/posgresql.go:111-132 | Succeeds exactly for a stored id, returning its `is_admin` flag. An absent id gives `ErrUserNotFound` and never `ErrAppNotFound`. Driver errors come back as text matching no sentinel. |
| `Postgres.Storage.SaveApp` | internal/storage/postgresql/posgresql.go:134-152 | A taken name gives `ErrAppExist` with nothing changed. A new name inserts one app and returns its id. Other errors are wrapped with nothing changed, and only the duplicate matches `ErrAppExist`. |
| `Postgres.Storage.SetRoles` | internal/storage/postgresql/posgresql.go:154-171 | On a healthy database the roles of that email are replaced and nil is returned, also when no user has the email. Errors are wrapped and never match `ErrUserNotFound`. |
| `Postgres.Storage.GetRoles` | internal/storage/postgresql/posgresql.go:173-191 | Succeeds exactly for a stored email, with that user's roles. An absent email gives `ErrUserNotFound`. Driver errors match no sentinel. |
| `Postgres.SetThenGetRoles` | tests/get_set_roles_test.go:24-33 | The round trip the test expects: after saving a user, `SetRoles(e, R)` then `GetRoles(e)` returns exactly `R`, and other users' roles are unchanged. As written, both halves fail in the driver (see `Postgres.Storage.SetRoles` and `Postgres.Storage.GetRoles` under "Left out"). |
| `Sqlite.Storage.constructor` | internal/storage/sqllite/sqlite.go:23-34 | The adapter starts over valid tables. |
| `Sqlite.Storage.SaveUser` | internal/storage/sqllite/sqlite.go:36-62 | A unique violation gives `ErrUserExist` with nothing changed. Other insert errors come back as text. A new email inserts one row and returns its id. A failing `LastInsertId` gives an error although the row is stored. |
| `Sqlite.Storage.User` | internal/storage/sqllite/sqlite.go:64-82 | Roles are always empty. An absent email gives `ErrUserNotFound`. A failed query gives the zero user and no error; only a prepare failure or an absent email is an error. A prepare failure comes back as text matching no sentinel. |
| `Sqlite.Storage.App` | internal/storage/sqllite/sqlite.go:84-102 | An absent id gives `ErrAppNotFound`. A failed query gives the zero app and no error. A prepare failure comes back as text matching no sentinel. |
| `Sqlite.Storage.IsAdmin` | internal/storage/sqllite/sqlite.go:104-122 | An absent id gives `ErrUserNotFound`. A failed query gives `false` and no error. A prepare failure comes back as text matching no sentinel. |
| `Sqlite.AgreesWithPostgresWhenHealthy` | internal/storage/sqllite/sqlite.go:64-122 | Over the same tables and a database that answers, both adapters give the same users, apps and admin flags, except that SQLite drops the roles. |
| `AuthService.Auth.constructor` | internal/services/auth/auth.go:51-62 | The service keeps the storage and TTL it is given. |
| `AuthService.Auth.Login` | internal/services/auth/auth.go:64-104 | A token is issued only in one case: the user is stored, the hash matches the password, the app exists, and store and signer are healthy. Its claims are that user's id and roles, the email, the app id, and `now + tokenTTL`. It verifies with that app's secret at every second from `now` up to, not including, `now + tokenTTL`, and is rejected as expired at `now + tokenTTL`. Every error is wrapped with `auth.Login`. |
| `AuthService.Auth.LoginUnknownEmail` | internal/services/auth/auth.go:75-80 | An unknown email gives the wrapped `ErrInvalidCredentials` and no token. |
| `AuthService.Auth.LoginWrongPassword` | internal/services/auth/auth.go:85-88 | A wrong password gives an error equal to the one for an unknown email: the same text and the same chain to `ErrInvalidCredentials`. |
| `AuthService.Auth.LoginChecksPasswordBeforeApp` | internal/services/auth/auth.go:75-93 | While the user lookup fails or the password does not match, the outcome does not depend on the app id, the app lookup, the clock or the signer. |
| `AuthService.Auth.LoginAppFailurePropagates` | internal/services/auth/auth.go:90-93 | After a matching password, an app lookup error is returned wrapped and unchanged. It is never `ErrInvalidCredentials`; an unknown app is `ErrAppNotFound`. |
| `AuthService.Auth.LoginUserLookupFailurePropagates` | internal/services/auth/auth.go:75-83 | A user lookup error other than "not found" is returned wrapped and matches no sentinel. |
| `AuthService.Auth.LoginSigningFailurePropagates` | internal/services/auth/auth.go:97-101 | When user, password and app are all fine but the signer fails, its error is returned wrapped with `auth.Login` and matches no sentinel. |
| `AuthService.Auth.LoginSucceeds` | internal/services/auth/auth.go:90-103 | A stored user with a matching password and an existing app always gets a token from a healthy store and signer. |
| `AuthService.Auth.RegisterNewUser` | internal/services/auth/auth.go:106-135 | The password is hashed first and only the hash is saved. A hashing error is wrapped with nothing stored. A taken email becomes `ErrUserExists`. A prepare error is wrapped. A swallowed query error gives id 0. Success returns the store's fresh id, and the stored row holds the hash. |
| `AuthService.Auth.IsAdmin` | internal/services/auth/auth.go:137-155 | Succeeds exactly for a stored id, with its flag. An absent id gives the store's `ErrUserNotFound`, wrapped and untranslated. Driver errors of the store are passed on wrapped with `auth.IsAdmin` and match no sentinel. No error matches the service's `ErrUserNotFound`. |
| `AuthService.IsAdminError` | internal/services/auth/auth.go:142-150 | The service's error for a store error is wrapped with `auth.IsAdmin`. `ErrAppNotFound` becomes `ErrInvalidCredentials`, and every other error matches exactly the sentinels it matched before. |
| `AuthService.Auth.IsAdminNeverInvalidCredentials` | internal/services/auth/auth.go:142-147 | The `ErrInvalidCredentials` branch of IsAdmin never fires over this store. |
| `AuthService.Auth.IsAdminTranslated` | internal/services/auth/auth.go:137-155 | The corrected IsAdmin. It behaves the same on success, and an error matches the service's `ErrUserNotFound` exactly when the id is absent. |
| `AuthService.Auth.CreateApp` | internal/services/auth/auth.go:157-175 | A taken name becomes `ErrAppExist` with nothing changed. Other errors are wrapped. Success returns the fresh id, and that id then finds the app. |
| `Format.Digits` | internal/grps/auth/server.go:65 | Decimal digits, at least one, with no leading zero. |
| `Format.Decimal` | internal/grps/auth/server.go:65 | `%d`: a minus sign exactly for negative numbers, then at least one digit, without leading zeros. |
| `Format.DecimalRoundTrip` | internal/grps/auth/server.go:65 | Reading back `%d` of an integer gives that integer. |
| `Server.Login` | internal/grps/auth/server.go:32-51 | Succeeds exactly when all fields are present and the service succeeded, and then returns the service's token unchanged. InvalidArgument exactly for a missing field. NotFound exactly for `ErrInvalidCredentials` on the chain. Anything else is Internal "Internal error". |
| `Server.LoginChecksFieldsInOrder` | internal/grps/auth/server.go:33-41 | Email, then password, then app id are checked, each with its own message. A rejected request does not depend on the service. |
| `Server.LoginHidesInternalErrors` | internal/grps/auth/server.go:43-48 | Every other service error gives the same Internal "Internal error" status, whatever its text. |
| `Server.Register` | internal/grps/auth/server.go:73-88 | Succeeds exactly when both fields are present and the service succeeded, returning its id. Errors are InvalidArgument exactly for a missing field, AlreadyExists "User already exist with email: <email>" exactly for `ErrUserExists`, and otherwise Internal "Internal error". |
| `Server.RegisterChecksFieldsInOrder` | internal/grps/auth/server.go:74-79 | Email is checked before password. A rejected request does not depend on the service. |
| `Server.RegisterHidesInternalErrors` | internal/grps/auth/server.go:81-85 | Every service error other than `ErrUserExists` gives the same Internal "Internal error" status, whatever its text. |
| `Server.IsAdmin` | internal/grps/auth/server.go:57-71 | Succeeds exactly for a non-zero id when the service succeeded, returning the flag. Errors are InvalidArgument "user_id is empty" exactly for a zero id, NotFound naming the id exactly for the service's `ErrUserNotFound`, and otherwise Internal "Not correctly user_id or internal error". |
| `Server.IsAdminHidesInternalErrors` | internal/grps/auth/server.go:62-67 | Every service error other than the service's `ErrUserNotFound` gives the same Internal status, whatever its text. |
| `Server.IsAdminNotFoundNamesTheId` | internal/grps/auth/server.go:64-66 | Two NotFound replies of IsAdmin are equal only for the same id. |
| `EndToEnd.LoginCredentialFailuresLookAlike` | tests/auth_register_login_test.go:76-101 | An unknown email and a wrong password get the same NotFound "Invalid credentials" reply. |
| `EndToEnd.LoginSigningFailureIsInternal` | internal/grps/auth/server.go:42-48 | A signer failure after a correct login reaches the client as Internal "Internal error", not as invalid credentials. |
| `EndToEnd.LoginUnknownAppIsInternal` | internal/grps/auth/server.go:42-48 | With the right password, an app id naming no app is reported as Internal. |
| `EndToEnd.IsAdminUnknownUserIsInternal` | internal/grps/auth/server.go:62-67 | As written, IsAdmin for an id naming no user answers Internal, not NotFound. |
| `EndToEnd.IsAdminTranslatedUnknownUserIsNotFound` | internal/grps/auth/server.go:62-66 | With the corrected service, that request answers NotFound naming the id. Existing users get the same reply as before. |
| `EndToEnd.RegisterThenLogin` | tests/auth_register_login_test.go:24-57 | Register then login with the same password. The new id is positive and unused. The token carries that id, the email, the app id, no roles, and expiry login time plus TTL. It is signed with the app's secret. |
| `EndToEnd.RegisterTwice` | tests/auth_register_login_test.go:60-73 | A second registration of an email gets AlreadyExists naming the email and no id. The tables hold only the first user. |
| `EndToEnd.RegisterDuringQueryFailure` | internal/storage/postgresql/posgresql.go:52-61 | When the insert fails for a reason other than a taken email, the client is told the registration succeeded with id 0, and nothing is stored. |

## Findings

| source | as written | input that shows it | evidently intended | confidence | as-written member | corrected member |
|---|---|---|---|---|---|---|
| internal/services/auth/auth.go:142-150 | The service's IsAdmin translates only the store's `ErrAppNotFound`, which the store's IsAdmin never returns. It passes the store's `ErrUserNotFound` on unchanged. The handler (internal/grps/auth/server.go:64) tests for the service's own `ErrUserNotFound`, a different value, so its NotFound branch cannot be reached. | An IsAdmin request with `user_id` 42 when no user has id 42. The reply is Internal "Not correctly user_id or internal error". | The store's `ErrUserNotFound` becomes the service's `ErrUserNotFound`, and the reply is NotFound "User not found with id: 42". | high; not executed | `EndToEnd.IsAdminUnknownUserIsInternal` | `AuthService.Auth.IsAdminTranslated` (used in `EndToEnd.IsAdminTranslatedUnknownUserIsNotFound`) |

## Behaviour of the code worth knowing

- **SetRoles on an absent email.** If the driver accepts the roles argument, it returns nil and changes nothing. An UPDATE that matches no row is not an error, so the `ErrNoRows` branch at posgresql.go:163-165 never fires.
- **Roles.** The code stores a Go slice, and get_set_roles_test.go:33 compares slices, so order and repeats count. The model uses `seq<string>`.
- **Admin status.** It is the `is_admin` column (posgresql.go:116), not a role.
- **Login with an unknown app.** The store's `ErrAppNotFound` reaches the handler. The handler turns only `ErrInvalidCredentials` into NotFound (server.go:43-48), so the client sees Internal (`EndToEnd.LoginUnknownAppIsInternal`).
- **Registration failures.** The PostgreSQL adapter swallows query errors other than a duplicate email (posgresql.go:52-61). Such a registration "succeeds" with id 0 (`EndToEnd.RegisterDuringQueryFailure`).
- **Service operations.** The service has no GetRoles, SetRoles or DeleteUser. Roles are read and written only through the storage methods.

## Left out

- **bcrypt.** Salts, cost and constant-time comparison are not modelled. The two calls are parameters (`Bcrypt.Hasher`). Only the register-then-login scenario assumes that a fresh hash verifies against its own password (`Bcrypt.Sound`).
- **JWT encoding and signing.** Header, base64/JSON and HMAC are not modelled. A signature is the term `Hmac(key, claims)`. `jwtlocal.NewToken` is not part of this model, so its claims are those the tests read back.
- **JWT verification.** It follows section 4.1.4 of RFC 7519, as the `github.com/golang-jwt/jwt/v5` parser the tests use does: a token is accepted only while the current second is before `exp`. That library is not part of this model, and neither are its leeway options. Times are whole seconds, so sub-second truncation of `exp` is not modelled.
- **SQL.** Statement text, prepared statements and driver error decoding (the PostgreSQL code "23505", SQLite's `ErrConstraintUnique`) are abstracted. They become the table's duplicate and missing-row outcomes and the `Fault` parameter.
- **Id sequences.** They advance only on a successful insert. Gaps left by failed inserts in PostgreSQL are not modelled.
- **Schema defaults.** The migrations are not part of this model. A new user row is taken to have no roles and `is_admin` false.
- **Postgres.Storage.SetRoles.** As written, it passes the Go `[]string` to `ExecContext` without `pq.Array` (posgresql.go:162). The default parameter converter of database/sql rejects a slice of strings before the statement runs. So every call returns the `%w`-wrapped error and updates nothing, whether or not the email exists. The model gives this result for a non-healthy `Fault`, and gives the tested behaviour (the roles are replaced) under `Healthy`.
- **Postgres.Storage.GetRoles.** Returns the stored roles, as the tests expect. As written, it scans into `roles` by value (posgresql.go:182), which the driver rejects for every stored email. The model does not reproduce that rejection.
- **Part-way scan failures.** A failed column conversion leaves the columns before it assigned. This is not modelled. The model's only read failures are a failed prepare and a failed statement (`QueryFailed`), where `Scan` assigns nothing and the zero values come back.
- **Opening connections.** `NewDB` and `NewStorage` failures are not modelled. The constructors take the database as it stands.
- **`context.Context`.** Deadlines and cancellation are not modelled; no decision depends on them.
- **Logging.** The `slog` calls are not modelled.
- **Transport and wiring.** The following are plumbing and are not modelled: `internal/app/app.go`, `internal/app/grpc/app.go`, `cmd/sso/main.go`, `cmd/migrator/main.go`, `internal/config/config.go` and `tests/suit/suit.go`.
- **The `Logout` handler.** It only panics.
- **The CreateApp RPC.** The handlers do not implement it; the service operation is modelled.
- **Concurrency.** Nothing in the core is concurrent by design.
- **The SQLite adapter in the service.** The service is modelled over the PostgreSQL adapter only. SQLite's `SaveUser` takes a `*context.Context`, so it does not fit the service's `UserSaver` interface.
- **Error messages of sentinels.** They are not modelled: no reply carries the text of a service error.
- **`ErrInvalidAppID`.** The service declares it but never returns it.
