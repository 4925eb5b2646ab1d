/** The auth use case: Register, Login and Refresh as transitions of the
    (users, tokens) store. The clock reading, bcrypt, HS256 signing and the
    database driver's errors of one request are the inputs collected in `Env`. */
module AuthUsecase {
  import opened Wrappers
  import opened Jwt
  import Users = UserRepository
  import Tokens = TokenRepository

  /** The errors the use case returns: six with fixed messages, and three
      that pass an error of a collaborator through unchanged. */
  datatype Error =
    | FieldsRequired        // "all fields are required"
    | UsernameExists        // "username already exists"
    | EmailExists           // "email already exists"
    | InvalidCredentials    // "invalid credentials"
    | InvalidRefreshToken   // "invalid refresh token"
    | RefreshTokenExpired   // "refresh token expired"
    | DatabaseError         // an error of the SQL driver
    | HashError             // an error of bcrypt.GenerateFromPassword
    | SigningError          // an error of SignedString

  /** How a request ends: a response, an error, or the runtime panic of a
      nil-pointer dereference. */
  datatype Outcome<T> = Done(value: T) | Failed(error: Error) | NilDereference

  datatype LoginResponse = LoginResponse(accessToken: string, refreshToken: string, user: Users.User)
  datatype RegisterResponse = RegisterResponse(user: Users.User, accessToken: string, refreshToken: string)
  datatype RefreshResponse = RefreshResponse(accessToken: string, refreshToken: string)

  /** The two tables the use case reads and writes. */
  datatype Store = Store(users: Users.UserTable, tokens: seq<Tokens.TokenRow>)

  /** Which SQL statements of this request fail with a driver error. A failed
      statement changes nothing; every statement commits on its own. */
  datatype Faults = Faults(
    usernameQuery: bool,
    emailQuery: bool,
    userInsert: bool,
    tokenQuery: bool,
    tokenInsert: bool,
    tokenDelete: bool)

  const NoFaults: Faults := Faults(false, false, false, false, false, false)

  /** bcrypt: hashing (None is an error of GenerateFromPassword) and the
      check CompareHashAndPassword(hash, password) == nil. */
  datatype Crypto = Crypto(hash: string -> Option<string>, matches: (string, string) -> bool)

  /** Everything one request depends on besides the store. */
  datatype Env = Env(tm: TokenManager, sign: Signer, crypto: Crypto, now: int, faults: Faults)

  /** A request's outcome and the store it leaves behind. */
  datatype Step<T> = Step(outcome: Outcome<T>, store: Store)

  /** The signer never fails. */
  ghost predicate SignsAll(sign: Signer)
  {
    forall secret, claims :: sign(secret, claims).Some?
  }

  /** Every token row belongs to a stored user, and user ids are sound. */
  predicate Consistent(s: Store)
  {
    && Users.Valid(s.users)
    && forall i :: 0 <= i < |s.tokens| ==> Users.HasId(s.users, s.tokens[i].userId)
  }

  /** `after` is `before` with one user appended, carrying the given
      username and email and a password field that is the hash of `password`. */
  predicate AddsUser(before: Users.UserTable, after: Users.UserTable, crypto: Crypto,
                     username: string, email: string, password: string)
  {
    && |after.rows| == |before.rows| + 1
    && after.rows[..|before.rows|] == before.rows
    && after.rows[|before.rows|].username == username
    && after.rows[|before.rows|].email == email
    && crypto.hash(password) == Some(after.rows[|before.rows|].password)
  }

  /** Login: look the user up by email, compare the password with the stored
      hash, issue an access and a refresh token, and save the refresh token. */
  function Login(s: Store, env: Env, email: string, password: string): (r: Step<LoginResponse>)
    ensures env.faults.emailQuery ==> r == Step(Failed(DatabaseError), s)
    ensures !env.faults.emailQuery && (forall u | u in s.users.rows :: u.email != email)
            ==> r == Step(NilDereference, s)
    ensures !env.faults.emailQuery && Users.FindByEmail(s.users, email).Some?
            && !env.crypto.matches(Users.FindByEmail(s.users, email).value.password, password)
            ==> r == Step(Failed(InvalidCredentials), s)
    ensures !r.outcome.Done? ==> r.store == s
    ensures r.outcome.Done? ==>
              var u := r.outcome.value.user;
              && u in s.users.rows && u.email == email
              && env.crypto.matches(u.password, password)
              && r.store.users == s.users
              && r.store.tokens == s.tokens + [Tokens.TokenRow(u.id, r.outcome.value.refreshToken,
                                                               env.now + env.tm.refreshTokenExpiry)]
              && GenerateAccessToken(env.tm, env.sign, env.now, u.id) == Some(r.outcome.value.accessToken)
  {
    if env.faults.emailQuery then Step(Failed(DatabaseError), s)
    else
      match Users.FindByEmail(s.users, email)
      // the lookup reports an unknown email as (nil, nil), so the password
      // check reads the password field of a nil user
      case None => Step(NilDereference, s)
      case Some(user) => LoginAs(s, env, user, password)
  }

  /** The part of Login after the user has been found. */
  function LoginAs(s: Store, env: Env, user: Users.User, password: string): (r: Step<LoginResponse>)
    ensures !r.outcome.Done? ==> r.store == s
    ensures !env.crypto.matches(user.password, password) ==> r == Step(Failed(InvalidCredentials), s)
    ensures r.outcome.Done? ==>
              && r.outcome.value.user == user
              && env.crypto.matches(user.password, password)
              && r.store.users == s.users
              && r.store.tokens == s.tokens + [Tokens.TokenRow(user.id, r.outcome.value.refreshToken,
                                                               env.now + env.tm.refreshTokenExpiry)]
              && GenerateAccessToken(env.tm, env.sign, env.now, user.id) == Some(r.outcome.value.accessToken)
    ensures r.outcome.Done? <==>
              && env.crypto.matches(user.password, password)
              && GenerateAccessToken(env.tm, env.sign, env.now, user.id).Some?
              && GenerateRefreshToken(env.tm, env.sign, env.now).Some?
              && !env.faults.tokenInsert
  {
    if !env.crypto.matches(user.password, password) then Step(Failed(InvalidCredentials), s)
    else
      match GenerateAccessToken(env.tm, env.sign, env.now, user.id)
      case None => Step(Failed(SigningError), s)
      case Some(access) =>
        match GenerateRefreshToken(env.tm, env.sign, env.now)
        case None => Step(Failed(SigningError), s)
        case Some(issued) =>
          if env.faults.tokenInsert then Step(Failed(DatabaseError), s)
          else Step(Done(LoginResponse(access, issued.token, user)),
                    s.(tokens := Tokens.Save(s.tokens, user.id, issued.token, issued.expiresAt)))
  }

  /** Login with the not-found branch the code evidently intends: an unknown
      email is answered like a wrong password. */
  function LoginIntended(s: Store, env: Env, email: string, password: string): (r: Step<LoginResponse>)
    ensures r.outcome != NilDereference
    ensures !env.faults.emailQuery && (forall u | u in s.users.rows :: u.email != email)
            ==> r == Step(Failed(InvalidCredentials), s)
    ensures Users.FindByEmail(s.users, email).Some? ==> r == Login(s, env, email, password)
  {
    if env.faults.emailQuery then Step(Failed(DatabaseError), s)
    else
      match Users.FindByEmail(s.users, email)
      case None => Step(Failed(InvalidCredentials), s)
      case Some(user) => LoginAs(s, env, user, password)
  }

  /** Register: validate, reject a taken username or email, hash the password,
      insert the user, issue both tokens and save the refresh token. */
  function Register(s: Store, env: Env, username: string, email: string, password: string)
    : (r: Step<RegisterResponse>)
    ensures username == "" || email == "" || password == "" ==> r == Step(Failed(FieldsRequired), s)
    ensures username != "" && email != "" && password != "" && !env.faults.usernameQuery
            && Users.Taken(s.users.rows, Users.UsernameColumn, username)
            ==> r == Step(Failed(UsernameExists), s)
    ensures username != "" && email != "" && password != ""
            && (env.faults.usernameQuery || !Users.Taken(s.users.rows, Users.UsernameColumn, username))
            && !env.faults.emailQuery && Users.Taken(s.users.rows, Users.EmailColumn, email)
            ==> r == Step(Failed(EmailExists), s)
    ensures r.outcome != NilDereference
    ensures !r.outcome.Done? ==> r.store.tokens == s.tokens
    ensures r.store.users == s.users || AddsUser(s.users, r.store.users, env.crypto, username, email, password)
    ensures Users.Valid(s.users) ==> Users.Valid(r.store.users)
    ensures r.outcome.Failed? && r.outcome.error != SigningError && r.outcome.error != DatabaseError
            ==> r.store == s
    ensures r.outcome.Done? ==>
              var u := r.outcome.value.user;
              && username != "" && email != "" && password != ""
              && AddsUser(s.users, r.store.users, env.crypto, username, email, password)
              && r.store.users.rows == s.users.rows + [u]
              && (Users.Valid(s.users) ==> !Users.HasId(s.users, u.id))
              && r.store.tokens == s.tokens + [Tokens.TokenRow(u.id, r.outcome.value.refreshToken,
                                                               env.now + env.tm.refreshTokenExpiry)]
              && GenerateAccessToken(env.tm, env.sign, env.now, u.id) == Some(r.outcome.value.accessToken)
    ensures r.outcome.Done? && !env.faults.usernameQuery ==> !Users.Taken(s.users.rows, Users.UsernameColumn, username)
    ensures r.outcome.Done? && !env.faults.emailQuery ==> !Users.Taken(s.users.rows, Users.EmailColumn, email)
    ensures r.outcome.Done? <==>
              && username != "" && email != "" && password != ""
              && (env.faults.usernameQuery || !Users.Taken(s.users.rows, Users.UsernameColumn, username))
              && (env.faults.emailQuery || !Users.Taken(s.users.rows, Users.EmailColumn, email))
              && env.crypto.hash(password).Some?
              && !env.faults.userInsert
              && GenerateAccessToken(env.tm, env.sign, env.now, s.users.nextId).Some?
              && GenerateRefreshToken(env.tm, env.sign, env.now).Some?
              && !env.faults.tokenInsert
  {
    if username == "" || email == "" || password == "" then Step(Failed(FieldsRequired), s)
    else
      // both lookups discard their error: a failed query reads as "no such user"
      var byName := if env.faults.usernameQuery then None else Users.FindByUsername(s.users, username);
      if byName.Some? then Step(Failed(UsernameExists), s)
      else
        var byEmail := if env.faults.emailQuery then None else Users.FindByEmail(s.users, email);
        if byEmail.Some? then Step(Failed(EmailExists), s)
        else
          match env.crypto.hash(password)
          case None => Step(Failed(HashError), s)
          case Some(hashed) =>
            if env.faults.userInsert then Step(Failed(DatabaseError), s)
            else CreateAndIssue(s, env, username, email, password, hashed)
  }

  /** The part of Register from the insert on. A failure after the insert
      leaves the new user in place. */
  function CreateAndIssue(s: Store, env: Env, username: string, email: string, password: string,
                          hashed: string): (r: Step<RegisterResponse>)
    requires env.crypto.hash(password) == Some(hashed)
    ensures r.outcome != NilDereference
    ensures AddsUser(s.users, r.store.users, env.crypto, username, email, password)
    ensures Users.Valid(s.users) ==> Users.Valid(r.store.users)
    ensures r.outcome.Failed? ==> r.outcome.error in {SigningError, DatabaseError}
    ensures !r.outcome.Done? ==> r.store.tokens == s.tokens
    ensures r.outcome.Done? ==>
              var u := r.outcome.value.user;
              && r.store.users.rows == s.users.rows + [u]
              && (Users.Valid(s.users) ==> !Users.HasId(s.users, u.id))
              && r.store.tokens == s.tokens + [Tokens.TokenRow(u.id, r.outcome.value.refreshToken,
                                                               env.now + env.tm.refreshTokenExpiry)]
              && GenerateAccessToken(env.tm, env.sign, env.now, u.id) == Some(r.outcome.value.accessToken)
  {
    var created := Users.Create(s.users, username, email, hashed);
    var s1 := s.(users := created.table);
    match GenerateAccessToken(env.tm, env.sign, env.now, created.user.id)
    case None => Step(Failed(SigningError), s1)
    case Some(access) =>
      match GenerateRefreshToken(env.tm, env.sign, env.now)
      case None => Step(Failed(SigningError), s1)
      case Some(issued) =>
        if env.faults.tokenInsert then Step(Failed(DatabaseError), s1)
        else Step(Done(RegisterResponse(created.user, access, issued.token)),
                  s1.(tokens := Tokens.Save(s.tokens, created.user.id, issued.token, issued.expiresAt)))
  }

  /** Refresh: look the token up, reject it when missing or past its expiry,
      and otherwise rotate it. */
  function Refresh(s: Store, env: Env, token: string): (r: Step<RefreshResponse>)
    ensures r.store.users == s.users
    ensures r.outcome != NilDereference
    ensures env.faults.tokenQuery || !Tokens.Has(s.tokens, token)
            ==> r == Step(Failed(InvalidRefreshToken), s)
    ensures !env.faults.tokenQuery && Tokens.Has(s.tokens, token)
            && env.now > Tokens.Find(s.tokens, token).value.expiresAt
            ==> r == Step(Failed(RefreshTokenExpired), s)
    ensures !env.faults.tokenQuery && Tokens.Has(s.tokens, token)
            && env.now <= Tokens.Find(s.tokens, token).value.expiresAt
            ==> r == Rotate(s, env, token, Tokens.Find(s.tokens, token).value)
    ensures r.outcome.Done? ==>
              && !env.faults.tokenQuery && Tokens.Has(s.tokens, token)
              && env.now <= Tokens.Find(s.tokens, token).value.expiresAt
  {
    // any error of the row scan, "no rows" or a driver error, is reported the same way
    var found := if env.faults.tokenQuery then None else Tokens.Find(s.tokens, token);
    match found
    case None => Step(Failed(InvalidRefreshToken), s)
    case Some(owner) =>
      if env.now > owner.expiresAt then Step(Failed(RefreshTokenExpired), s)
      else Rotate(s, env, token, owner)
  }

  /** The rotation step of Refresh: issue a new pair for the token's owner,
      delete the old token's rows, save the new token. Both tokens are
      generated before anything is deleted. */
  function Rotate(s: Store, env: Env, token: string, owner: Tokens.Owner): (r: Step<RefreshResponse>)
    ensures r.store.users == s.users
    ensures GenerateAccessToken(env.tm, env.sign, env.now, owner.userId).None?
            || GenerateRefreshToken(env.tm, env.sign, env.now).None?
            ==> r == Step(Failed(SigningError), s)
    ensures r.outcome.Done? ==>
              && GenerateAccessToken(env.tm, env.sign, env.now, owner.userId) == Some(r.outcome.value.accessToken)
              && GenerateRefreshToken(env.tm, env.sign, env.now).Some?
              && r.outcome.value.refreshToken == GenerateRefreshToken(env.tm, env.sign, env.now).value.token
    ensures GenerateAccessToken(env.tm, env.sign, env.now, owner.userId).Some?
            && GenerateRefreshToken(env.tm, env.sign, env.now).Some?
            ==> r == Replace(s, env.faults, token, owner.userId,
                             GenerateAccessToken(env.tm, env.sign, env.now, owner.userId).value,
                             GenerateRefreshToken(env.tm, env.sign, env.now).value)
  {
    var access := GenerateAccessToken(env.tm, env.sign, env.now, owner.userId);
    var issued := GenerateRefreshToken(env.tm, env.sign, env.now);
    if access.None? || issued.None? then Step(Failed(SigningError), s)
    else Replace(s, env.faults, token, owner.userId, access.value, issued.value)
  }

  /** The writes of a rotation: delete every row of the old token, then save
      the new one under the same owner. */
  function Replace(s: Store, faults: Faults, token: string, userId: nat, access: string,
                   issued: IssuedRefresh): (r: Step<RefreshResponse>)
    ensures r.store.users == s.users
    ensures r.outcome.Failed? ==> r.outcome.error == DatabaseError
    ensures r.outcome.Failed? && r.store != s ==> r.store.tokens == Tokens.Delete(s.tokens, token)
    ensures r.outcome.Done? <==> !faults.tokenDelete && !faults.tokenInsert
    ensures r.outcome.Done? ==>
              && r.outcome.value == RefreshResponse(access, issued.token)
              && r.store.tokens == Tokens.Delete(s.tokens, token)
                                   + [Tokens.TokenRow(userId, issued.token, issued.expiresAt)]
  {
    if faults.tokenDelete then Step(Failed(DatabaseError), s)
    else
      var remaining := Tokens.Delete(s.tokens, token);
      // the presented token's rows are gone; a failed insert does not restore them
      if faults.tokenInsert then Step(Failed(DatabaseError), s.(tokens := remaining))
      else Step(Done(RefreshResponse(access, issued.token)),
                s.(tokens := Tokens.Save(remaining, userId, issued.token, issued.expiresAt)))
  }
}
