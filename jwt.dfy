/** The token issuer `jwtlocal.NewToken` of sso/internal/lib (not part of this
    model) and the verification the tests perform with `jwt.Parse`, reduced to
    the claims record and a symbolic signature. `exp` is the registered claim of
    section 4.1.4 of RFC 7519; times are whole seconds. */
module Jwt {
  import opened Wrappers
  import opened Errors
  import opened Models

  datatype Claims = Claims(uid: int, email: string, appId: int, roles: seq<string>, exp: int)

  /** An HMAC over the claims with a key. It is a term, not a computation: two
      signatures are equal exactly when key and payload are. */
  datatype Signature = Hmac(key: string, payload: Claims)

  datatype Token = Token(claims: Claims, signature: Signature)

  datatype Rejection = InvalidSignature | Expired

  /** Issues a token for `user` at `app`, valid for `ttl` seconds from `now`.
      `failure` is an error the signing library reports. */
  function NewToken(user: User, app: App, ttl: int, now: int, failure: Option<string>): (r: Result<Token, Error>)
    ensures r.Ok? <==> failure.None?
    ensures failure.Some? ==> r == Err(Text(failure.value))
  {
    match failure
    case Some(message) => Err(Text(message))
    case None =>
      var claims := Claims(user.id, user.email, app.id, user.roles, now + ttl);
      Ok(Token(claims, Hmac(app.secret, claims)))
  }

  /** Parses a token with `key` at time `now`: the signature must recompute
      with that key, and `exp` is the first second at which the token is no
      longer accepted. */
  function Verify(token: Token, key: string, now: int): (r: Result<Claims, Rejection>)
    ensures r.Ok? <==> token.signature == Hmac(key, token.claims) && now < token.claims.exp
    ensures r.Ok? ==> r.value == token.claims
    ensures r == Err(Expired) <==> token.signature == Hmac(key, token.claims) && token.claims.exp <= now
  {
    if token.signature != Hmac(key, token.claims) then Err(InvalidSignature)
    else if token.claims.exp <= now then Err(Expired)
    else Ok(token.claims)
  }

  /** A token issued for a user and an app verifies with that app's secret
      until its expiry, and carries exactly the user's id, email and roles, the
      app's id, and issue time plus TTL. */
  lemma IssuedTokenVerifies(user: User, app: App, ttl: int, now: int, later: int)
    requires now <= later < now + ttl
    ensures NewToken(user, app, ttl, now, None).Ok?
    ensures Verify(NewToken(user, app, ttl, now, None).value, app.secret, later)
         == Ok(Claims(user.id, user.email, app.id, user.roles, now + ttl))
  {
  }

  /** The same token is rejected with any other key, and from its expiry on. */
  lemma IssuedTokenRejected(user: User, app: App, ttl: int, now: int, key: string, later: int)
    ensures NewToken(user, app, ttl, now, None).Ok?
    ensures key != app.secret ==> Verify(NewToken(user, app, ttl, now, None).value, key, later) == Err(InvalidSignature)
    ensures later >= now + ttl ==> Verify(NewToken(user, app, ttl, now, None).value, app.secret, later) == Err(Expired)
  {
  }
}
