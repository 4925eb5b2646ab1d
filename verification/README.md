# Credential lifecycle of the auth service, in Dafny

This project models the core of the forum backend's auth service: the three
use cases `Register`, `Login` and `Refresh` of `authUsecase`, the two tables
they read and write (users, and refresh tokens), and the claim construction
and expiry arithmetic of the JWT token manager.

The model is functional. A `Store` holds a user table (rows plus the id
counter of the serial column) and the tokens table as a sequence of
`(userId, token, expiresAt)` rows. Each use case is a pure function from a
store and an `Env` to a `Step`: the outcome and the store left behind. The
`Env` collects what the Go code reads from outside for one request:

- the clock reading `now`, as an integer count of nanoseconds;
- bcrypt, as a `hash` function and a `matches` relation;
- HS256 signing, as a deterministic function of (secret, claims);
- the database driver's errors, as one flag per SQL statement the use cases issue (the username lookup, the email lookup, the user insert, and the token lookup, insert and delete).

Outcomes are `Done(response)`, `Failed(error)` or `NilDereference`. The last
stands for the runtime panic described under Findings.

Modules:

- `Wrappers`: the `Option` type.
- `Jwt` (pkg/auth/jwt.go): TTL constants, `Unix()` seconds, claim maps, token generation.
- `TokenRepository` (internal/repository/token_repository.go): `Save`, `Find`, `Delete` over a row sequence.
- `UserRepository` (internal/repository/user_repository.go): `FindByUsername`, `FindByEmail`, `Create`.
- `AuthUsecase` (internal/usecase/auth_usecase.go): the three use cases, the error kinds and the store invariant.
- `Lifecycle`: multi-call properties such as register-then-login, one-time use of rotated tokens, and the invariant.

Behaviour of the code that the model makes explicit:

- `Register` discards the errors of its two lookups (`existingUser, _ :=`). A failing query therefore reads as "no such user". When the username query fails, a taken username is inserted again (`Lifecycle.RegisterLookupFaultAdmitsDuplicate`). The two lookups fail independently: if only the username query fails and the email is taken, the answer is still "email already exists".
- A failure after the user insert in `Register` leaves the new user in the table with no token.
- `Refresh` generates both tokens before deleting anything. A signing failure changes nothing. A failed insert after the delete loses the presented token's rows; the user's other rows remain.
- The refresh token's only claim is `exp` in whole seconds. Two refresh tokens signed with the same secret in the same second are the same string. The one-time-use guarantee (`Lifecycle.RefreshReplayFails`) therefore needs the new token to differ from the old one. `Lifecycle.SameSecondRefreshReissuesToken` shows the case where it does not: a Refresh in the same second as the Login hands back the consumed token, and that token still resolves.
- The same determinism crosses users. Two logins in the same second, by different users, get the same refresh token string, and the table holds one row for each. `Find` answers with the first user's row. A Refresh with the second user's token therefore issues an access token for the first user and deletes both rows (`Lifecycle.SameSecondLoginsShareToken`). `Lifecycle.LoginThenRefresh` keeps the owner only because it requires that no earlier row carries the new string.
- Expiry uses `now > expiresAt`, so the expiry instant itself is still accepted (`Lifecycle.RefreshAcceptedUntilExpiry`).

Further facts about the code that the model keeps:

- Login on an unknown email panics. It does not answer "invalid credentials".
- Refresh tokens are not random opaque strings. They are JWTs that depend only on the secret and the expiry second.
- `Create` and `Save` enforce no uniqueness in the code.

## Model

| member | source | states |
|---|---|---|
| `Jwt.Configured` | backend/auth-service/cmd/main.go:55-60 | the service signs access tokens for 24 hours and refresh tokens for 720 hours (30 days) |
| `Jwt.UnixSeconds` | backend/auth-service/pkg/auth/jwt.go:37-39 | `Unix()` gives the whole second an instant falls in, rounding down |
| `Jwt.RefreshClaims` | backend/auth-service/pkg/auth/jwt.go:37-39 | a refresh token's claims are exactly `exp`, the expiry second; there is no `user_id` |
| `Jwt.AccessClaims` | backend/auth-service/pkg/auth/jwt.go:49-52 | an access token's claims are exactly `user_id` (the argument) and `exp` (the expiry second) |
| `Jwt.GenerateAccessToken` | backend/auth-service/pkg/auth/jwt.go:48-56 | the token is the access-secret signature of the claims `{user_id, exp = second of now + access TTL}` |
| `Jwt.GenerateRefreshToken` | backend/auth-service/pkg/auth/jwt.go:35-44 | the expiry is now + refresh TTL; the token is the refresh-secret signature of `{exp}` alone, and it fails exactly when signing fails |
| `Jwt.RefreshTokenDeterminedBySecond` | backend/auth-service/pkg/auth/jwt.go:35-44 | two refresh tokens issued in the same second with the same secret and a whole-second TTL are the same string |
| `TokenRepository.Save` | backend/auth-service/internal/repository/token_repository.go:22-30 | appends one row, keeping every existing row (also those of the same user); a token with no earlier row is then found with the saved owner and expiry |
| `TokenRepository.SaveKeepsEarlierRow` | backend/auth-service/internal/repository/token_repository.go:22-44 | saving a row never changes what Find answers for a token that already has a row |
| `TokenRepository.FirstIndex` | backend/auth-service/internal/repository/token_repository.go:32-44 | locates the first row with the token, or reports that no row has it |
| `TokenRepository.Find` | backend/auth-service/internal/repository/token_repository.go:32-44 | fails exactly when no row carries the token; otherwise returns the owner and expiry of the first such row |
| `TokenRepository.Delete` | backend/auth-service/internal/repository/token_repository.go:46-52 | no row with the token remains and every remaining row was there before; deleting an absent token changes nothing |
| `TokenRepository.DeleteKeepsOtherRows` | backend/auth-service/internal/repository/token_repository.go:46-52 | every row with a different token keeps its multiplicity; rows with the token are all gone |
| `TokenRepository.DeleteThenFind` | backend/auth-service/internal/repository/token_repository.go:32-52 | after Delete the token no longer resolves |
| `UserRepository.SelectFirst` | backend/auth-service/internal/repository/user_repository.go:26-56 | returns the first stored user with the value in the column, and nothing exactly when no user has it |
| `UserRepository.FindByUsername` | backend/auth-service/internal/repository/user_repository.go:26-40 | returns a stored user with that username; an absent username gives no user and no error |
| `UserRepository.FindByEmail` | backend/auth-service/internal/repository/user_repository.go:42-56 | returns a stored user with that email; an absent email gives no user and no error |
| `UserRepository.Create` | backend/auth-service/internal/repository/user_repository.go:58-65 | stores the given username, email and password and returns the user with its new id, which no stored user has |
| `UserRepository.SelectFirstAppend` | backend/auth-service/internal/repository/user_repository.go:26-65 | a lookup on a table grown by one row finds that row exactly when no earlier row matches and it does |
| `UserRepository.CreateThenFind` | backend/auth-service/internal/repository/user_repository.go:26-65 | after Create, a user with a fresh username and email is found by both |
| `UserRepository.CreateKeepsUnique` | backend/auth-service/internal/repository/user_repository.go:58-65 | Create with a fresh username and email keeps usernames and emails unique |
| `AuthUsecase.Login` | backend/auth-service/internal/usecase/auth_usecase.go:71-103 | a lookup error is passed on; an unknown email panics; a wrong password gives "invalid credentials"; only success writes, appending one row for the user and leaving users alone |
| `AuthUsecase.LoginAs` | backend/auth-service/internal/usecase/auth_usecase.go:80-102 | for a found user, succeeds exactly when the password matches, both tokens are signed and the save works; the saved row carries the returned refresh token |
| `AuthUsecase.LoginIntended` | backend/auth-service/internal/usecase/auth_usecase.go:71-78 | the corrected Login: never panics, answers an unknown email with "invalid credentials", and agrees with Login whenever the user exists |
| `AuthUsecase.Register` | backend/auth-service/internal/usecase/auth_usecase.go:105-154 | an empty field, then a taken username, then a taken email are rejected with nothing changed; it succeeds exactly when the fields are given, each name is free or its lookup failed, hashing, both inserts and both signatures work; success adds one user with the hashed password and one refresh row for its new id |
| `AuthUsecase.CreateAndIssue` | backend/auth-service/internal/usecase/auth_usecase.go:125-153 | after the insert the user stays even if signing or the token save fails; no token row is written unless the whole request succeeds |
| `AuthUsecase.Refresh` | backend/auth-service/internal/usecase/auth_usecase.go:156-164 | a token without a row (or a failed lookup) gives "invalid refresh token"; `now` after the expiry gives "refresh token expired"; neither changes anything |
| `AuthUsecase.Rotate` | backend/auth-service/internal/usecase/auth_usecase.go:166-175 | a signing failure leaves the store unchanged because both tokens are generated before any write |
| `AuthUsecase.Replace` | backend/auth-service/internal/usecase/auth_usecase.go:176-187 | success removes the old token's rows and saves the new token under the same user; a failed insert after the delete leaves only the delete |
| `Lifecycle.LoginKeepsConsistent` | backend/auth-service/internal/usecase/auth_usecase.go:71-103 | Login keeps every token row owned by a stored user |
| `Lifecycle.RegisterKeepsConsistent` | backend/auth-service/internal/usecase/auth_usecase.go:105-154 | Register keeps ids sound and every token row owned by a stored user |
| `Lifecycle.RefreshKeepsConsistent` | backend/auth-service/internal/usecase/auth_usecase.go:156-188 | Refresh keeps every token row owned by a stored user |
| `Lifecycle.RegisterKeepsUnique` | backend/auth-service/internal/usecase/auth_usecase.go:110-118 | when its lookups work, Register never creates a second user with a taken username or email |
| `Lifecycle.RegisterLookupFaultAdmitsDuplicate` | backend/auth-service/internal/usecase/auth_usecase.go:110-118 | when only the username lookup fails, its discarded error lets Register succeed and insert a duplicate username |
| `Lifecycle.RegisterSucceeds` | backend/auth-service/internal/usecase/auth_usecase.go:105-154 | with a working store and signer, Register succeeds exactly when every field is given, the username and email are free and hashing works |
| `Lifecycle.RegisterThenLogin` | backend/auth-service/internal/usecase/auth_usecase.go:71-153 | for given fields with a free username and email, Register succeeds, and Login with the same email and password then succeeds and returns the registered user |
| `Lifecycle.RegisterTwiceFails` | backend/auth-service/internal/usecase/auth_usecase.go:110-113 | a second Register with the same username fails with "username already exists" and changes nothing |
| `Lifecycle.RefreshAcceptedUntilExpiry` | backend/auth-service/internal/usecase/auth_usecase.go:157-164 | with a working store and signer, Refresh succeeds exactly when the token has a row and `now <= expiresAt` |
| `Lifecycle.RefreshRotatesToken` | backend/auth-service/internal/usecase/auth_usecase.go:156-187 | a successful Refresh replaces all rows of the old token by one row for the new token, owned by the old token's user, and leaves users alone |
| `Lifecycle.RefreshFailureChangesAtMostDelete` | backend/auth-service/internal/usecase/auth_usecase.go:156-187 | a failed Refresh changes nothing, except when the insert after the delete fails, which leaves exactly the delete |
| `Lifecycle.RefreshReplayFails` | backend/auth-service/internal/usecase/auth_usecase.go:166-187 | when rotation issued a different string, a second Refresh with the old token fails and changes nothing |
| `Lifecycle.LoginThenRefresh` | backend/auth-service/internal/usecase/auth_usecase.go:84-187 | when no earlier row carries its string, a token fresh from Login rotates at any time up to its expiry, keeping the owner |
| `Lifecycle.SameSecondLoginsShareToken` | backend/auth-service/pkg/auth/jwt.go:35-44 | two logins in the same second get the same refresh string; a Refresh with the second one issues an access token for the first user and deletes both rows |
| `Lifecycle.SameSecondRefreshReissuesToken` | backend/auth-service/pkg/auth/jwt.go:35-44 | a Refresh in the same second as the issuing Login returns the consumed token, which still resolves |
| `Lifecycle.LoginUnknownEmailPanics` | backend/auth-service/internal/repository/user_repository.go:49-51 | as written, an unknown email panics while a wrong password gives "invalid credentials" |
| `Lifecycle.LoginIntendedHidesUnknownEmail` | backend/auth-service/internal/usecase/auth_usecase.go:73-82 | corrected, an unknown email and a wrong password give the same answer and change nothing |

## Findings

| source | as written | input that shows it | evidently intended | confidence | as-written member | corrected member |
|---|---|---|---|---|---|---|
| backend/auth-service/internal/usecase/auth_usecase.go:72-80 | `FindByEmail` returns `(nil, nil)` for an unknown email (user_repository.go:49-51). So the `ErrRecordNotFound` branch at line 74 is never taken, and line 80 reads the password of a nil user. | Login with an email that no stored user has, while the query itself succeeds | answer "invalid credentials", as line 75 does, the same as for a wrong password | high; not executed | `AuthUsecase.Login` with `Lifecycle.LoginUnknownEmailPanics` | `AuthUsecase.LoginIntended` with `Lifecycle.LoginIntendedHidesUnknownEmail` |

## Left out

- HTTP layer: routers, CORS, logging, swagger and the controller's status codes are not modelled. `authService` only delegates to the use case.
- Process setup: the database connection, migrations and environment configuration are I/O. The table schema lives in migrations that are not part of this model, so no unique constraint of the database is modelled. `Create` and `Save` enforce none.
- bcrypt and HS256 internals are parameters. bcrypt's random salt is abstracted: within one request `hash` is a fixed function.
- Concurrency: racing Refresh calls and the check-then-insert race in Register depend on the database's row-level consistency. The model is sequential.
- Clock: the Go code reads `time.Now()` once per token and once for the expiry check. The model uses one `now` per request.
- Integer widths: user ids are `uint` in Go and a serial column in the database. The model uses unbounded naturals and does not model overflow of the id counter.
- Storage precision: the database may round `expires_at` (for example to microseconds) or shift its time zone. The model stores the exact instant.
- Row order: `Find` and the user lookups return the first matching row in insertion order. SQL without `ORDER BY` promises no order, so with duplicate rows the real row chosen may differ.
- `entity.User.RefreshToken` is never read or written by the core and is not modelled.
- Forum service: post CRUD, its controllers, stub services and the token middleware are outside this core.
- Access-token verification is not done by this service. Its expiry boundary is therefore not modelled.
