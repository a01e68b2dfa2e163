/** Go error values as the core builds and inspects them. */
module Errors {

  /** The package-level sentinel values compared by identity with `errors.Is`. */
  datatype Sentinel =
    // declared in sso/internal/services/storage, which is not part of this model
    | StorageUserExist | StorageUserNotFound | StorageAppNotFound | StorageAppExist
    // declared in internal/services/auth/auth.go
    | InvalidCredentials | UserExists | InvalidAppId | UserNotFound | AppExist

  /** An error value. `Text` is any error that is not a sentinel and wraps
      nothing: a driver or library error, or one rebuilt from a message with
      `fmt.Errorf("%s: %s", op, err.Error())`. `Wrapped` is
      `fmt.Errorf("%s: %w", op, cause)`, which keeps the cause reachable. */
  datatype Error =
    | Sentinel(kind: Sentinel)
    | Text(message: string)
    | Wrapped(op: string, cause: Error)

  /** `errors.Is(e, target)`: some error on the wrap chain of `e` is `target`.
      A sentinel matches itself, and an error that only carries text matches
      none. */
  predicate Is(e: Error, target: Sentinel)
    ensures e == Sentinel(target) ==> Is(e, target)
    ensures e.Text? ==> !Is(e, target)
  {
    match e
    case Sentinel(k) => k == target
    case Text(_) => false
    case Wrapped(_, cause) => Is(cause, target)
  }

  /** A chain ends in one error, so it matches at most one sentinel. */
  lemma {:induction false} IsMatchesOneSentinel(e: Error, k1: Sentinel, k2: Sentinel)
    requires Is(e, k1) && Is(e, k2)
    ensures k1 == k2
  {
    if e.Wrapped? {
      IsMatchesOneSentinel(e.cause, k1, k2);
    }
  }

  /** The innermost error of the chain, reached by unwrapping until nothing is
      wrapped; `errors.Is` holds exactly when that error is the sentinel. */
  function Cause(e: Error): (r: Error)
    ensures !r.Wrapped?
    ensures forall k :: Is(e, k) <==> r == Sentinel(k)
  {
    match e
    case Wrapped(_, cause) => Cause(cause)
    case _ => e
  }

  /** `fmt.Errorf("%s: %s", op, err.Error())` applied to a driver error whose
      text is `message`: the result matches no sentinel. */
  function Flatten(op: string, message: string): (r: Error)
    ensures forall k :: !Is(r, k)
  {
    Text(op + ": " + message)
  }
}
