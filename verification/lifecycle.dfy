/** Properties of sequences of use-case calls: the store invariant, the
    register/login/refresh scenarios, one-time use of rotated refresh tokens
    and its same-second exception, and the unknown-email path of Login. */
module Lifecycle {
  import opened Wrappers
  import opened Jwt
  import Users = UserRepository
  import Tokens = TokenRepository
  import opened AuthUsecase

  /** bcrypt accepts every password against its own hash. */
  ghost predicate HashVerifies(crypto: Crypto)
  {
    forall pw | crypto.hash(pw).Some? :: crypto.matches(crypto.hash(pw).value, pw)
  }

  /** A request whose SQL statements all succeed and whose signer never fails. */
  ghost predicate Healthy(env: Env)
  {
    env.faults == NoFaults && SignsAll(env.sign)
  }

  // ---------------------------------------------------------------------------
  // The store invariant

  lemma LoginKeepsConsistent(s: Store, env: Env, email: string, password: string)
    requires Consistent(s)
    ensures Consistent(Login(s, env, email, password).store)
  {
  }

  lemma RegisterKeepsConsistent(s: Store, env: Env, username: string, email: string, password: string)
    requires Consistent(s)
    ensures Consistent(Register(s, env, username, email, password).store)
  {
  }

  lemma RefreshKeepsConsistent(s: Store, env: Env, token: string)
    requires Consistent(s)
    ensures Consistent(Refresh(s, env, token).store)
  {
  }

  /** With its lookups working, Register never admits a second user with the
      same username or email. */
  lemma RegisterKeepsUnique(s: Store, env: Env, username: string, email: string, password: string)
    requires Users.Unique(s.users)
    requires !env.faults.usernameQuery && !env.faults.emailQuery
    ensures Users.Unique(Register(s, env, username, email, password).store.users)
  {
  }

  /** Register discards the error of its username lookup, so when that
      query fails it inserts a user whose username is already taken. */
  lemma RegisterLookupFaultAdmitsDuplicate(s: Store, env: Env, username: string, email: string, password: string)
    requires env.faults == NoFaults.(usernameQuery := true) && SignsAll(env.sign)
    requires username != "" && email != "" && password != "" && env.crypto.hash(password).Some?
    requires Users.Taken(s.users.rows, Users.UsernameColumn, username)
    requires !Users.Taken(s.users.rows, Users.EmailColumn, email)
    ensures Register(s, env, username, email, password).outcome.Done?
    ensures !Users.Unique(Register(s, env, username, email, password).store.users)
  {
  }

  // ---------------------------------------------------------------------------
  // Scenarios

  /** With a working store and signer, Register succeeds exactly when every
      field is given, the username and email are free and hashing works. */
  lemma RegisterSucceeds(s: Store, env: Env, username: string, email: string, password: string)
    requires Healthy(env)
    ensures Register(s, env, username, email, password).outcome.Done?
            <==> && username != "" && email != "" && password != ""
                 && !Users.Taken(s.users.rows, Users.UsernameColumn, username)
                 && !Users.Taken(s.users.rows, Users.EmailColumn, email)
                 && env.crypto.hash(password).Some?
  {
  }

  /** For valid, fresh registration data, Register succeeds, and Login with
      the same email and password then succeeds and hands back the
      registered user. */
  lemma RegisterThenLogin(s: Store, env1: Env, env2: Env, username: string, email: string, password: string)
    requires Healthy(env1) && Healthy(env2)
    requires username != "" && email != "" && password != ""
    requires !Users.Taken(s.users.rows, Users.UsernameColumn, username)
    requires !Users.Taken(s.users.rows, Users.EmailColumn, email)
    requires env1.crypto.hash(password).Some?
    requires env2.crypto == env1.crypto && HashVerifies(env1.crypto)
    ensures Register(s, env1, username, email, password).outcome.Done?
    ensures Login(Register(s, env1, username, email, password).store, env2, email, password).outcome.Done?
    ensures Login(Register(s, env1, username, email, password).store, env2, email, password).outcome.value.user
            == Register(s, env1, username, email, password).outcome.value.user
  {
    RegisterSucceeds(s, env1, username, email, password);
    var r := Register(s, env1, username, email, password);
    var u := r.outcome.value.user;
    Users.SelectFirstAppend(s.users.rows, u, Users.EmailColumn, email);
    assert Users.FindByEmail(r.store.users, email) == Some(u);
  }

  /** A second Register with a username that a first one created fails and
      creates nothing, whatever email it brings. */
  lemma RegisterTwiceFails(s: Store, env1: Env, env2: Env, username: string, email1: string, email2: string,
                           password1: string, password2: string)
    requires Register(s, env1, username, email1, password1).outcome.Done?
    requires email2 != "" && password2 != "" && !env2.faults.usernameQuery
    ensures var s1 := Register(s, env1, username, email1, password1).store;
            Register(s1, env2, username, email2, password2) == Step(Failed(UsernameExists), s1)
  {
  }

  /** With a working store and signer, Refresh succeeds exactly when the
      token has a row and the clock has not passed that row's expiry; the
      expiry instant itself is still accepted. */
  lemma RefreshAcceptedUntilExpiry(s: Store, env: Env, token: string)
    requires Healthy(env)
    ensures Refresh(s, env, token).outcome.Done?
            <==> Tokens.Has(s.tokens, token) && env.now <= Tokens.Find(s.tokens, token).value.expiresAt
  {
  }

  /** A successful Refresh replaces every row of the old token by one row
      for the new token, owned by the user the old token belonged to. */
  lemma RefreshRotatesToken(s: Store, env: Env, token: string)
    requires Refresh(s, env, token).outcome.Done?
    ensures var r := Refresh(s, env, token);
            var owner := Tokens.Find(s.tokens, token).value;
            && r.store.users == s.users
            && r.store.tokens == Tokens.Delete(s.tokens, token)
                                 + [Tokens.TokenRow(owner.userId, r.outcome.value.refreshToken,
                                                    env.now + env.tm.refreshTokenExpiry)]
            && GenerateAccessToken(env.tm, env.sign, env.now, owner.userId) == Some(r.outcome.value.accessToken)
  {
  }

  /** A failed Refresh changes the store in one case only: the old token was
      deleted and the insert of the new one failed, losing the session. */
  lemma RefreshFailureChangesAtMostDelete(s: Store, env: Env, token: string)
    requires Refresh(s, env, token).outcome.Failed?
    ensures var r := Refresh(s, env, token);
            r.store == s
            || (r.outcome.error == DatabaseError && env.faults.tokenInsert
                && r.store == s.(tokens := Tokens.Delete(s.tokens, token)))
  {
  }

  /** A refresh token whose rotation handed out a different string cannot be
      used again: the second Refresh fails and changes nothing. */
  lemma RefreshReplayFails(s: Store, env1: Env, env2: Env, token: string)
    requires Refresh(s, env1, token).outcome.Done?
    requires Refresh(s, env1, token).outcome.value.refreshToken != token
    ensures var s1 := Refresh(s, env1, token).store;
            Refresh(s1, env2, token) == Step(Failed(InvalidRefreshToken), s1)
  {
  }

  /** A refresh token fresh from Login, whose string no earlier row carries,
      can be rotated at any time up to its expiry, and the rotation keeps the
      owner. */
  lemma LoginThenRefresh(s: Store, env1: Env, env2: Env, email: string, password: string)
    requires Login(s, env1, email, password).outcome.Done?
    requires !Tokens.Has(s.tokens, Login(s, env1, email, password).outcome.value.refreshToken)
    requires Healthy(env2)
    requires env2.now <= env1.now + env1.tm.refreshTokenExpiry
    ensures var l := Login(s, env1, email, password);
            var r := Refresh(l.store, env2, l.outcome.value.refreshToken);
            && r.outcome.Done?
            && r.store.tokens[|r.store.tokens| - 1].userId == l.outcome.value.user.id
  {
  }

  /** The exception to one-time use: a Refresh in the same wall-clock second
      as the Login that issued the token signs the same claims, so it hands
      back the token it consumed, and that token still resolves. */
  lemma SameSecondRefreshReissuesToken(s: Store, env1: Env, env2: Env, email: string, password: string,
                                       accessSecret: string, refreshSecret: string)
    requires env1.tm == Configured(accessSecret, refreshSecret)
    requires Login(s, env1, email, password).outcome.Done?
    requires !Tokens.Has(s.tokens, Login(s, env1, email, password).outcome.value.refreshToken)
    requires Healthy(env2) && env2.tm == env1.tm && env2.sign == env1.sign
    requires env1.now <= env2.now && UnixSeconds(env1.now) == UnixSeconds(env2.now)
    ensures var l := Login(s, env1, email, password);
            var token := l.outcome.value.refreshToken;
            var r := Refresh(l.store, env2, token);
            && r.outcome.Done?
            && r.outcome.value.refreshToken == token
            && Tokens.Has(r.store.tokens, token)
  {
    var l := Login(s, env1, email, password);
    var token := l.outcome.value.refreshToken;
    assert env2.now <= env1.now + env1.tm.refreshTokenExpiry;
    LoginThenRefresh(s, env1, env2, email, password);
    RefreshTokenDeterminedBySecond(env1.tm, env1.sign, env1.now, env2.now);
    var r := Refresh(l.store, env2, token);
    assert r.store.tokens[|r.store.tokens| - 1].token == token;
  }

  /** Refresh tokens carry no user id, so two logins in the same second get
      the same string and the table holds a row for each. Find returns the
      first one: a Refresh with the second user's token issues an access
      token for the first user and deletes both rows. */
  lemma SameSecondLoginsShareToken(s: Store, env1: Env, env2: Env, env3: Env,
                                   emailA: string, passwordA: string, emailB: string, passwordB: string,
                                   accessSecret: string, refreshSecret: string)
    requires env1.tm == Configured(accessSecret, refreshSecret)
    requires env2.tm == env1.tm && env2.sign == env1.sign
    requires UnixSeconds(env1.now) == UnixSeconds(env2.now)
    requires Login(s, env1, emailA, passwordA).outcome.Done?
    requires !Tokens.Has(s.tokens, Login(s, env1, emailA, passwordA).outcome.value.refreshToken)
    requires Login(Login(s, env1, emailA, passwordA).store, env2, emailB, passwordB).outcome.Done?
    requires Healthy(env3) && env3.now <= env1.now + env1.tm.refreshTokenExpiry
    ensures var l1 := Login(s, env1, emailA, passwordA);
            var l2 := Login(l1.store, env2, emailB, passwordB);
            var userA := l1.outcome.value.user.id;
            var token := l2.outcome.value.refreshToken;
            var r := Refresh(l2.store, env3, token);
            && token == l1.outcome.value.refreshToken
            && r.outcome.Done?
            && GenerateAccessToken(env3.tm, env3.sign, env3.now, userA) == Some(r.outcome.value.accessToken)
            && r.store.tokens == Tokens.Delete(l2.store.tokens, token)
                                 + [Tokens.TokenRow(userA, r.outcome.value.refreshToken,
                                                    env3.now + env3.tm.refreshTokenExpiry)]
  {
    var l1 := Login(s, env1, emailA, passwordA);
    var l2 := Login(l1.store, env2, emailB, passwordB);
    var userA := l1.outcome.value.user.id;
    var token := l1.outcome.value.refreshToken;
    var expA := env1.now + env1.tm.refreshTokenExpiry;
    assert Tokens.Find(l1.store.tokens, token) == Some(Tokens.Owner(userA, expA));
    RefreshTokenDeterminedBySecond(env1.tm, env1.sign, env1.now, env2.now);
    assert l2.outcome.value.refreshToken == token;
    Tokens.SaveKeepsEarlierRow(l1.store.tokens, l2.outcome.value.user.id, token,
                               env2.now + env2.tm.refreshTokenExpiry, token);
    assert Tokens.Find(l2.store.tokens, token) == Some(Tokens.Owner(userA, expA));
    RefreshAcceptedUntilExpiry(l2.store, env3, token);
    RefreshRotatesToken(l2.store, env3, token);
  }

  // ---------------------------------------------------------------------------
  // Login on an unknown email

  /** As written, an unknown email does not produce the error a wrong
      password produces: the request panics instead. */
  lemma LoginUnknownEmailPanics(s: Store, env: Env, unknown: string, known: string, password: string)
    requires !env.faults.emailQuery
    requires forall u | u in s.users.rows :: u.email != unknown
    requires Users.FindByEmail(s.users, known).Some?
    requires !env.crypto.matches(Users.FindByEmail(s.users, known).value.password, password)
    ensures Login(s, env, unknown, password).outcome == NilDereference
    ensures Login(s, env, known, password).outcome == Failed(InvalidCredentials)
  {
  }

  /** With the not-found branch in place, an unknown email and a wrong
      password give the same answer and leave the store alone. */
  lemma LoginIntendedHidesUnknownEmail(s: Store, env: Env, unknown: string, known: string, password: string)
    requires !env.faults.emailQuery
    requires forall u | u in s.users.rows :: u.email != unknown
    requires Users.FindByEmail(s.users, known).Some?
    requires !env.crypto.matches(Users.FindByEmail(s.users, known).value.password, password)
    ensures LoginIntended(s, env, unknown, password) == LoginIntended(s, env, known, password)
    ensures LoginIntended(s, env, unknown, password) == Step(Failed(InvalidCredentials), s)
  {
  }
}
