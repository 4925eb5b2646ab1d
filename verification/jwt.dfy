/** The token manager of the auth service: claim construction and expiry
    arithmetic for access and refresh tokens. HS256 signing itself is an
    external primitive, supplied as a deterministic function `Signer`. */
module Jwt {
  import opened Wrappers

  /** Go's time.Duration and time.Time are counted in nanoseconds. */
  const Second: int := 1_000_000_000
  const Hour: int := 3600 * Second

  /** The lifetimes the service is configured with at start-up. */
  const AccessTokenExpiry: int := 24 * Hour
  const RefreshTokenExpiry: int := 720 * Hour

  /** A jwt.MapClaims value: claim names mapped to their integer values. */
  type Claims = map<string, int>

  /** HS256 over (secret, claims); None stands for an error of SignedString.
      Being a Dafny function it is deterministic: equal inputs, equal tokens. */
  type Signer = (string, Claims) -> Option<string>

  datatype TokenManager = TokenManager(
    accessTokenSecret: string,
    refreshTokenSecret: string,
    accessTokenExpiry: int,
    refreshTokenExpiry: int)

  /** A freshly signed refresh token together with its absolute expiry. */
  datatype IssuedRefresh = IssuedRefresh(token: string, expiresAt: int)

  /** The manager built in the service's start-up code. */
  function Configured(accessSecret: string, refreshSecret: string): (tm: TokenManager)
    ensures tm.accessTokenSecret == accessSecret && tm.refreshTokenSecret == refreshSecret
    ensures tm.accessTokenExpiry == 86_400 * Second
    ensures tm.refreshTokenExpiry == 30 * 86_400 * Second
    ensures tm.refreshTokenExpiry % Second == 0
  {
    TokenManager(accessSecret, refreshSecret, AccessTokenExpiry, RefreshTokenExpiry)
  }

  /** time.Time.Unix: whole seconds, rounded towards negative infinity. */
  function UnixSeconds(t: int): (s: int)
    ensures s * Second <= t < (s + 1) * Second
  {
    t / Second
  }

  /** The claims of a refresh token: its expiry second and nothing else. */
  function RefreshClaims(expiresAt: int): (c: Claims)
    ensures c.Keys == {"exp"}
    ensures "user_id" !in c
    ensures c["exp"] * Second <= expiresAt < (c["exp"] + 1) * Second
  {
    map["exp" := UnixSeconds(expiresAt)]
  }

  /** The claims of an access token: the user id and the expiry second. */
  function AccessClaims(userId: nat, expiresAt: int): (c: Claims)
    ensures c.Keys == {"user_id", "exp"}
    ensures c["user_id"] == userId
    ensures c["exp"] * Second <= expiresAt < (c["exp"] + 1) * Second
  {
    map["user_id" := userId, "exp" := UnixSeconds(expiresAt)]
  }

  /** A claims map is fixed by its keys and their values. */
  lemma RefreshClaimsDetermined(expiresAt: int)
    ensures forall c: Claims | c.Keys == {"exp"} && c["exp"] == UnixSeconds(expiresAt) ::
              c == RefreshClaims(expiresAt)
  {
  }

  lemma AccessClaimsDetermined(userId: nat, expiresAt: int)
    ensures forall c: Claims | c.Keys == {"user_id", "exp"} && c["user_id"] == userId
              && c["exp"] == UnixSeconds(expiresAt) :: c == AccessClaims(userId, expiresAt)
  {
  }

  /** A signed access token for `userId`, valid for the access lifetime
      from `now`, signed with the access secret. */
  function GenerateAccessToken(tm: TokenManager, sign: Signer, now: int, userId: nat): (r: Option<string>)
    ensures forall c: Claims | c.Keys == {"user_id", "exp"} && c["user_id"] == userId
              && c["exp"] == UnixSeconds(now + tm.accessTokenExpiry) :: r == sign(tm.accessTokenSecret, c)
  {
    AccessClaimsDetermined(userId, now + tm.accessTokenExpiry);
    sign(tm.accessTokenSecret, AccessClaims(userId, now + tm.accessTokenExpiry))
  }

  /** A signed refresh token expiring one refresh lifetime after `now`,
      signed with the refresh secret; no user id goes into it. */
  function GenerateRefreshToken(tm: TokenManager, sign: Signer, now: int): (r: Option<IssuedRefresh>)
    ensures r.Some? ==> r.value.expiresAt == now + tm.refreshTokenExpiry
    ensures forall c: Claims | c.Keys == {"exp"} && c["exp"] == UnixSeconds(now + tm.refreshTokenExpiry) ::
              (r.Some? <==> sign(tm.refreshTokenSecret, c).Some?)
              && (r.Some? ==> sign(tm.refreshTokenSecret, c) == Some(r.value.token))
  {
    var expiresAt := now + tm.refreshTokenExpiry;
    RefreshClaimsDetermined(expiresAt);
    match sign(tm.refreshTokenSecret, RefreshClaims(expiresAt))
    case None => None
    case Some(token) => Some(IssuedRefresh(token, expiresAt))
  }

  /** Two refresh tokens issued with the same secret and lifetime in the same
      wall-clock second are the same string, as long as the lifetime is a
      whole number of seconds (the configured 720 hours is). */
  lemma RefreshTokenDeterminedBySecond(tm: TokenManager, sign: Signer, now1: int, now2: int)
    requires tm.refreshTokenExpiry % Second == 0
    requires UnixSeconds(now1) == UnixSeconds(now2)
    ensures GenerateRefreshToken(tm, sign, now1).Some? <==> GenerateRefreshToken(tm, sign, now2).Some?
    ensures GenerateRefreshToken(tm, sign, now1).Some? ==>
              GenerateRefreshToken(tm, sign, now1).value.token == GenerateRefreshToken(tm, sign, now2).value.token
  {
  }
}
