# simple_auth_go in Dafny

A model of the core of a device-identity authentication service. Devices
register under a UUID. Each registration, sign-in or refresh mints a pair of
tokens: a session token and a refresh token. A gate in front of protected
routes accepts a request only if its `Authorization` header carries a
stored, unexpired session token, and then binds that token's user id to the
request.

The model has six modules, one per source file of the core, plus the rows:

- `Models` (models.dfy): the rows (`Token`, `User`), the errors, and the two
  table operations the repositories rely on. `Where` is "WHERE column = ?
  ... First". `CreateToken` is "generate a value, then INSERT under the
  unique index on `value`". It also holds the lemmas that tie lookups to
  inserts.
- `Users` (user.dfy): the users table, a class whose `rows` the insert
  method reassigns. The unique device UUID and the auto-increment id counter
  are its invariant.
- `SessionTokens` and `RefreshTokens` (session_token.dfy, refresh_token.dfy):
  two separate token tables of the same shape. Each is a class with a create
  method that only appends, and a read-only `FindByValue`.
- `Middlewares` (auth_required.dfy): `strings.Split` on a space, bearer
  extraction, the strict expiry check, the gate's decision as a function,
  and `AuthRequired` as a method on a request context.
- `Apis` (auth.dfy): pair issuance and the three handlers. Each is a function
  from the old tables to a response and the new tables (`IssuePair`,
  `RegisterOutcome`, `SignInOutcome`, `RefreshOutcome`). The class
  `AuthHandler` runs the same steps against the repository objects and is
  proved equal to those functions.

The outside world becomes parameters:
- the clock is `now: int`;
- the token generator is an `Option<string>` per token drawn (`None` means
  the random source failed), and one issuance takes `Draws(session, refresh)`
  in that order;
- `uuid.Validate` is a parameter `isValidUuid: string -> bool`;
- a JSON body that fails to bind is `Body.Unparseable`;
- the validity durations are the `validTime` constants of the two token
  repositories, fixed when each is built.

Both expiry checks are strict: internal/middlewares/auth_required.go:45 and
internal/apis/auth.go:166 use `Before`, so a token that expires exactly at
`now` is still accepted; `IsTokenExpired` and `RefreshExpiry` state this.

## Model

| member | source | states |
|---|---|---|
| Models.Where | internal/repositories/session_token.go:52 | the query succeeds iff some row holds the key; the row it returns is the first row, in primary-key order, that holds the key (gorm's `First`); a miss is `RecordNotFound` |
| Models.WhereFindsUnique | internal/models/token.go:10 | under a unique index the query returns exactly the row that holds the key |
| Models.WhereAfterAppend | internal/repositories/session_token.go:42-57 | appending a row changes a lookup only for a key absent before and held by the new row |
| Models.AppendKeepsUnique | internal/models/token.go:10 | inserting a row whose key is new keeps the unique index intact |
| Models.FindUnique | internal/repositories/session_token.go:50-57 | the lookup both token repositories share: under the unique index on `value` it succeeds iff some row has the value and then returns that very row; a miss is `RecordNotFound` |
| Models.CreateToken | internal/repositories/session_token.go:26-47 | a failed draw gives `EntropyError`, a duplicate value gives `UniqueViolation`, and both leave the table unchanged; otherwise exactly one row `{userId, value, now + validTime}` is appended and returned; value uniqueness is preserved |
| Models.CreateThenFindToken | internal/repositories/session_token.go:26-57 | round trip: after a successful create, finding the new value returns that row, with its user id and expiry |
| Models.CreateKeepsFound | internal/models/token.go:9-11 | rows are create-only: every value found before a create is found afterwards as the same row |
| Users.CreateUser | internal/repositories/user.go:22-31 | the insert succeeds iff the device UUID is not yet stored; on failure the table and counter are unchanged; on success exactly one user with that UUID is appended |
| Users.CreateUserKeepsValid | internal/models/user.go:6 | unique device UUIDs, unique ids and the id range survive every insert, and a new user's id is held by no existing user |
| Users.CreateThenFindUser | internal/repositories/user.go:22-41 | round trip: create a device UUID, then find it, and the same user comes back, under the id the counter handed out |
| Users.CreateUserTwiceFails | internal/models/user.go:6 | a second creation with the same device UUID fails with a unique violation |
| Users.UserRepository.constructor | internal/repositories/user.go:18-20 | a new directory is empty, valid, and its ids start at 1 |
| Users.UserRepository.CreateWithDeviceUUID | internal/repositories/user.go:22-31 | the table changes exactly as `CreateUser` says, the invariant is kept, and a created user is findable at once |
| Users.UserRepository.FindByDeviceUUID | internal/repositories/user.go:34-41 | read-only; succeeds iff a stored user has that device UUID and returns such a user, otherwise `RecordNotFound` |
| SessionTokens.SessionTokenRepository.constructor | internal/repositories/session_token.go:22-24 | a new session-token table is empty and valid, with the given validity duration |
| SessionTokens.SessionTokenRepository.CreateWithUserId | internal/repositories/session_token.go:26-47 | the table changes exactly as `CreateToken` says with expiry `now + validTime`; old rows are a prefix of the new table; the returned token is findable at once |
| SessionTokens.SessionTokenRepository.FindByValue | internal/repositories/session_token.go:50-57 | read-only; `FindUnique` on the session table: succeeds iff some row has that value and then returns that very row; a miss is `RecordNotFound` |
| RefreshTokens.RefreshTokenRepository.constructor | internal/repositories/refresh_token.go:21-23 | a new refresh-token table is empty and valid, with the given validity duration |
| RefreshTokens.RefreshTokenRepository.CreateWithUserId | internal/repositories/refresh_token.go:25-46 | same as the session store, on its own table: `CreateToken` with expiry `now + validTime`, append-only, findable at once |
| RefreshTokens.RefreshTokenRepository.FindByValue | internal/repositories/refresh_token.go:49-56 | read-only; `FindUnique` on the refresh table: succeeds iff some refresh row has that value and returns that row; a miss is `RecordNotFound` |
| Middlewares.Split | internal/middlewares/auth_required.go:57 | the number of parts is the number of separators plus one, and no part holds the separator |
| Middlewares.JoinSplit | internal/middlewares/auth_required.go:57 | splitting loses nothing: joining the parts with the separator gives back the input |
| Middlewares.SplitWithoutSeparator | internal/middlewares/auth_required.go:57 | a string without the separator splits into itself alone |
| Middlewares.SplitTwoParts | internal/middlewares/auth_required.go:57-59 | two separator-free strings joined by one separator split into exactly those two |
| Middlewares.ExtractBearerTokenFromHeader | internal/middlewares/auth_required.go:52-63 | an empty header is `InvalidHeader`; a token is returned iff the header holds exactly one space; the token has no space and is the text after that space |
| Middlewares.ExtractRoundTrip | internal/middlewares/auth_required.go:57-62 | for any space-free scheme (even empty) and token, extracting from `scheme + " " + token` returns exactly the token |
| Middlewares.ExtractSchemeOnly | internal/middlewares/auth_required.go:57-62 | `"Bearer "` is accepted and yields the empty token |
| Middlewares.IsTokenExpired | internal/middlewares/auth_required.go:44-50 | no error iff `now <= expiredAt`: a token expiring exactly at `now` is accepted |
| Middlewares.GateDecision | internal/middlewares/auth_required.go:17-41 | it authenticates only if the header's token is a stored, unexpired session token, and then as that token's owner; under the unique index every such header is authenticated |
| Middlewares.GateRejectsUnknownToken | internal/middlewares/auth_required.go:26-31 | a well-formed header whose token is not in the session table is rejected with `RecordNotFound` |
| Middlewares.AuthRequired | internal/middlewares/auth_required.go:17-41 | on acceptance it binds `user_id` to the owner and calls the next handler; on every rejection it aborts with 403 and binds nothing; it modifies only the request context, never a table |
| Apis.IssuePair | internal/apis/auth.go:182-201 | succeeds iff both draws are present and unused in their tables; a failed session insert (no draw, or a duplicate value) stores nothing and returns that error; users untouched; each token table grows by at most one row; on success both new rows belong to the user, their values are the two draws, and the output carries those values and expiries; on error the refresh table is unchanged; table invariants are kept |
| Apis.IssuePairLeavesOrphanSession | internal/apis/auth.go:184-193 | not atomic: if the session insert succeeds and the refresh insert fails, an error is returned and the new session token stays stored and findable |
| Apis.RegisterOutcome | internal/apis/auth.go:63-93 | an unreadable body or invalid UUID gives 400 and no table changes; a duplicate device UUID gives 500 and no table changes; the status is 200, 400 or 500; the invariants are kept; when it answers 200 is stated by `RegisterOk` |
| Apis.RegisterOk | internal/apis/auth.go:63-93 | 200 iff the body is readable, the UUID is valid and not yet registered, and both draws are fresh |
| Apis.RegisterIssueFailureKeepsUser | internal/apis/auth.go:77-90 | when the user insert succeeds and issuance fails, the answer is 500 but the new user row stays, so a later registration of that UUID always gets 500 |
| Apis.RegisterSuccess | internal/apis/auth.go:77-92 | a 200 adds exactly one user (the UUID sent, an unused id) and exactly one session token and one refresh token, both for that user, expiring `now` plus their durations |
| Apis.RegisterThenAuthenticate | internal/apis/auth.go:85-92 | the session token from a 200 registration passes the gate at once as the new user |
| Apis.RegisterTwiceFails | internal/apis/auth.go:78-83 | registering the same UUID again after a success, at any later time and with any draws, gives 500 and changes nothing |
| Apis.SignInOutcome | internal/apis/auth.go:106-135 | an unreadable body or invalid UUID gives 400; an unknown device gives 500 (not 404) and changes nothing; users are never changed; the invariants are kept; when it answers 200 is stated by `SignInOk` |
| Apis.SignInOk | internal/apis/auth.go:106-135 | 200 iff the body is readable, the UUID is valid and registered, and both draws are fresh |
| Apis.SignInSuccess | internal/apis/auth.go:119-134 | a 200 issues exactly one session and one refresh token for the existing user with that device UUID |
| Apis.RefreshOutcome | internal/apis/auth.go:152-180 | an unreadable body or unknown refresh token gives 400 and changes nothing; users are never changed; the status is 200, 400 or 500; the invariants are kept; when it answers 200 is stated by `RefreshOk` |
| Apis.RefreshExpiry | internal/apis/auth.go:166-170 | a stored refresh token gets 400 iff its expiry is strictly before `now` |
| Apis.RefreshOk | internal/apis/auth.go:152-180 | a stored refresh token gets 200 iff its expiry is not before `now` and both draws are fresh |
| Apis.RefreshSuccess | internal/apis/auth.go:172-179 | a 200 issues one session and one refresh token for the presented token's owner; the token was unexpired; the new refresh value differs from the presented one |
| Apis.IssuePairKeepsRefreshTokens | internal/apis/auth.go:182-201 | issuing a pair never edits or removes a stored refresh token: every value found before is found afterwards as the same row |
| Apis.RefreshKeepsPresentedToken | internal/apis/auth.go:152-180 | whatever the outcome, the presented refresh token is found afterwards exactly as before (never deleted or changed) |
| Apis.RefreshTokenRejectedByGate | cmd/main.go:36-40 | the gate reads only the session table, so a value held only in the refresh table is rejected |
| Apis.AuthHandler.constructor | internal/apis/auth.go:26-36 | the handler holds the three repositories it is given and, given valid repositories, starts valid |
| Apis.AuthHandler.GenerateTokenOutDtoWithUserId | internal/apis/auth.go:182-201 | the response and the new tables are those `IssuePair` gives for the old tables; the table invariants are kept |
| Apis.AuthHandler.Register | internal/apis/auth.go:63-93 | the response and the new tables are those `RegisterOutcome` gives for the old tables |
| Apis.AuthHandler.SignIn | internal/apis/auth.go:106-135 | the response and the new tables are those `SignInOutcome` gives; the users table is not modified |
| Apis.AuthHandler.Refresh | internal/apis/auth.go:152-180 | the response and the new tables are those `RefreshOutcome` gives; the users table is not modified |

## Left out

- Token generation (internal/utils/crypto_util.go): the random bytes, the SHA-256 digest and the hex encoding are library calls. Each draw is a parameter, a string or a failure. The 64-character lowercase hex shape is not modelled, so lemmas that need a space-free token say so in a `requires`.
- Apis.IssuePair: one `now` stands for the two separate `time.Now()` reads of session_token.go:27 and refresh_token.go:26, so the two expiries of one pair are proved as `now` plus each duration from the same instant; in the source they may differ by the time between the two inserts.
- Apis.RegisterOutcome: one `now` is used for both expiries of the pair it issues, where the source reads the clock once per insert.
- Apis.SignInOutcome: one `now` is used for both expiries of the pair it issues, where the source reads the clock once per insert.
- Apis.RefreshOutcome: one `now` serves the expiry check at auth.go:166 and both expiries of the new pair, where the source reads the clock three separate times.
- `uuid.Validate` is a foreign validator and is taken as the parameter `isValidUuid`.
- `time.Now()` is the parameter `now`. The validity constants (internal/constants is not part of this model) are constructor parameters. Nothing assumes that refresh tokens outlive session tokens, or that durations are positive, except where a lemma requires it.
- gin plumbing: JSON binding is reduced to `Body`, responses to a status plus the output record, and `log.Println` is dropped. `Context` keeps only what the gate touches. Header-name canonicalisation and multi-valued headers are not modelled.
- gorm: SQL, soft deletion (`DeletedAt`; nothing in the code deletes), the `CreatedAt`/`UpdatedAt` timestamps, token row ids and the `size:36` column limit are not modelled. The auto-increment id is a counter that advances only on a successful insert.
- Storage failures other than a unique-index violation (lost connection, timeout) are not modelled. The only insert failures are a failed draw and a unique violation, and the only lookup failure is a miss.
- Concurrency: requests run one at a time. The race between two simultaneous registrations of one UUID depends on the database enforcing uniqueness under concurrency.
- User ids are unbounded naturals; the overflow of Go's `uint` is not modelled.
- The `Credentials` struct (internal/models/user.go:10-13) is unused by the code, and schema migration (cmd/main.go:12-26) is wiring.
- The gate takes the session-token repository directly rather than a `TokenProvider` function value. This is the wiring in cmd/main.go:36-40.
