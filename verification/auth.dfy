/** Session issuance and validation (`createSession` and `getSession` of
    lib/auth.ts). The HS256 signer is modelled as an ideal MAC: a signature
    is the pair (key, claims) it was computed from, so a token verifies under
    a key exactly when it was signed with that key over those claims. */
module Auth {
  import opened Wrappers
  import opened Store

  /** The fallback used when `JWT_SECRET` is unset or empty. */
  const DefaultSecret := "your-secret-key-at-least-32-characters"

  /** Twenty-four hours, in seconds. */
  const SessionLifetime := 60 * 60 * 24

  const UserNotFoundOrInactive := "User not found or inactive"

  /** `process.env.JWT_SECRET || DefaultSecret`. */
  function SigningKey(env: Option<string>): (key: string)
    ensures key != ""
    ensures Truthy(env) ==> key == env.value
    ensures !Truthy(env) ==> key == DefaultSecret
  {
    if Truthy(env) then env.value else DefaultSecret
  }

  datatype SessionRole = SessionRole(id: RoleId, name: string)

  datatype SessionUser = SessionUser(id: UserId, name: string, email: string, role: SessionRole)

  /** `UserSession`: a snapshot of the user and role, and the expiry in
      seconds since the epoch. */
  datatype UserSession = UserSession(user: SessionUser, exp: int)

  datatype Signature = Hs256(key: string, claims: UserSession)

  /** The `auth_token` cookie's value: a signed JWT, or any other string. */
  datatype Token = Jwt(claims: UserSession, signature: Signature) | Malformed(raw: string)

  function Sign(key: string, claims: UserSession): (t: Token)
    ensures t.Jwt? && t.claims == claims
  {
    Jwt(claims, Hs256(key, claims))
  }

  /** `Math.floor(ms / 1000)`; Dafny's division by a positive divisor rounds
      toward negative infinity, as `Math.floor` does. */
  function EpochSeconds(nowMs: int): (s: int)
    ensures s * 1000 <= nowMs < s * 1000 + 1000
  {
    nowMs / 1000
  }

  /** `jwtVerify(token, key)`: rejects an unparseable token, a bad signature,
      and a token whose `exp` is not after the current second. */
  function JwtVerify(t: Token, key: string, nowSec: int): (r: Result<UserSession, string>)
    ensures r.Success? <==> t.Jwt? && t == Sign(key, t.claims) && nowSec < t.claims.exp
    ensures r.Success? ==> r.value == t.claims
  {
    match t
    case Malformed(_) => Failure("JWSInvalid")
    case Jwt(claims, signature) =>
      if signature != Hs256(key, claims) then Failure("JWSSignatureVerificationFailed")
      else if claims.exp <= nowSec then Failure("JWTExpired")
      else Success(claims)
  }

  /** `getSession()`: null when there is no cookie, and null (never an
      exception) when verification fails; the verified payload otherwise.
      The store is not consulted. */
  function GetSession(cookie: Option<Token>, key: string, nowMs: int): (s: Option<UserSession>)
    ensures cookie.None? ==> s.None?
    ensures s.Some? <==> cookie.Some? && JwtVerify(cookie.value, key, EpochSeconds(nowMs)).Success?
    ensures s.Some? ==> cookie.value == Sign(key, s.value) && EpochSeconds(nowMs) < s.value.exp
  {
    match cookie
    case None => None
    case Some(t) =>
      match JwtVerify(t, key, EpochSeconds(nowMs))
      case Success(claims) => Some(claims)
      case Failure(_) => None
  }

  /** `createSession(userId)`: joins the user with its role, requires the
      user to be active, and signs a snapshot that expires in 24 hours. */
  function CreateSession(st: Store, userId: UserId, key: string, nowMs: int): (r: Result<Token, string>)
    ensures r.Success? <==>
      userId in st.users && st.users[userId].active && st.users[userId].roleId in st.roles
    ensures r.Failure? ==> r.error == UserNotFoundOrInactive
    ensures r.Success? ==>
      var u := st.users[userId];
      && r.value.Jwt? && r.value == Sign(key, r.value.claims)
      && r.value.claims.user == SessionUser(userId, u.name, u.email, SessionRole(u.roleId, st.roles[u.roleId].name))
      && r.value.claims.exp == EpochSeconds(nowMs) + SessionLifetime
  {
    if userId in st.users && st.users[userId].active && st.users[userId].roleId in st.roles then
      var u := st.users[userId];
      var role := SessionRole(u.roleId, st.roles[u.roleId].name);
      Success(Sign(key, UserSession(SessionUser(userId, u.name, u.email, role), EpochSeconds(nowMs) + SessionLifetime)))
    else
      Failure(UserNotFoundOrInactive)
  }

  /** A token from `createSession` reads back as its own payload, with the
      issuing user's id, until its expiry second. */
  lemma SessionRoundTrip(st: Store, userId: UserId, key: string, issuedMs: int, nowMs: int)
    requires CreateSession(st, userId, key, issuedMs).Success?
    requires EpochSeconds(nowMs) < EpochSeconds(issuedMs) + SessionLifetime
    ensures var t := CreateSession(st, userId, key, issuedMs).value;
      && GetSession(Some(t), key, nowMs) == Some(t.claims)
      && t.claims.user.id == userId
  {
  }

  /** From the expiry second on, the same token gives no session. */
  lemma SessionExpires(st: Store, userId: UserId, key: string, issuedMs: int, nowMs: int)
    requires CreateSession(st, userId, key, issuedMs).Success?
    requires EpochSeconds(nowMs) >= EpochSeconds(issuedMs) + SessionLifetime
    ensures GetSession(Some(CreateSession(st, userId, key, issuedMs).value), key, nowMs).None?
  {
  }

  /** A token verifies only under the key that signed it. */
  lemma SessionNeedsSigningKey(claims: UserSession, key: string, otherKey: string, nowMs: int)
    requires otherKey != key
    ensures GetSession(Some(Sign(key, claims)), otherKey, nowMs).None?
  {
  }

  /** With `JWT_SECRET` unset or empty, anyone who knows the fallback string
      can sign claims of their choosing (any user id, any role) and have them
      accepted as a session. */
  lemma DefaultSecretForgesSessions(env: Option<string>, claims: UserSession, nowMs: int)
    requires !Truthy(env)
    requires EpochSeconds(nowMs) < claims.exp
    ensures GetSession(Some(Sign(DefaultSecret, claims)), SigningKey(env), nowMs) == Some(claims)
  {
  }

  /** The signing key without a fallback: none unless `JWT_SECRET` is set
      to a non-empty value. */
  function ConfiguredSigningKey(env: Option<string>): (key: Option<string>)
    ensures key.Some? <==> Truthy(env)
    ensures key.Some? ==> key.value == SigningKey(env)
  {
    if Truthy(env) then Some(env.value) else None
  }

  /** `getSession()` over the key without a fallback: no cookie gives a
      session while the secret is not configured, and otherwise only a token
      signed with the configured secret does. */
  function GetSessionWithConfiguredKey(cookie: Option<Token>, env: Option<string>, nowMs: int): (s: Option<UserSession>)
    ensures !Truthy(env) ==> s.None?
    ensures s.Some? ==> cookie == Some(Sign(env.value, s.value)) && EpochSeconds(nowMs) < s.value.exp
    ensures Truthy(env) ==> s == GetSession(cookie, SigningKey(env), nowMs)
  {
    match ConfiguredSigningKey(env)
    case None => None
    case Some(key) => GetSession(cookie, key, nowMs)
  }

  /** Without the fallback, a token signed with the public default string
      is never accepted unless that very string was configured. */
  lemma ConfiguredKeyRejectsDefaultSecret(env: Option<string>, claims: UserSession, nowMs: int)
    requires env != Some(DefaultSecret)
    ensures GetSessionWithConfiguredKey(Some(Sign(DefaultSecret, claims)), env, nowMs).None?
  {
  }
}
