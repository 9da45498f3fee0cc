# Authentication and authorisation core of template-rust-backend

This project is a Dafny model of the auth core of a multi-tenant axum backend. It covers:

- the credential hasher and the session-token codec that `AuthService` uses;
- the `register`, `login` and `refresh_token` flows over the `users` table;
- the first-user-of-a-tenant-is-admin rule;
- the `BearerToken` gate and the `Claims` extractor, which turn an `Authorization` header into claims or an `AuthError`;
- the claim checks and the `AdminRole`, `AdminRoleWithTenant` and `TenantAccess` guards;
- the admin toggles of a user's status and role;
- the aggregation of field validation errors into one message;
- the `AppError` taxonomy and its rendering to status, code and message.

Modules, one per file:

| file | module | models |
|---|---|---|
| domain.dfy | `Domain` | `Option`/`Result`, roles, statuses, `User`, `Claims`, status codes, JSON response |
| text.dfy | `Text` | decimal text, first index, prefix stripping, substring search, ASCII lower-casing, `join` |
| password.dfy | `PasswordHasher` | `hash_password`, `verify_password` |
| jwt.dfy | `TokenCodec` | `jsonwebtoken::encode` / `decode` with `Validation` |
| app_error.dfy | `AppErrors` | `AppError`, `AuthError`, `into_response` |
| middleware_auth.dfy | `AuthMiddleware` | `AuthError::into_response`, `BearerToken`, the `Claims` extractor |
| access_guards.dfy | `AccessGuards` | `check_*` functions and the three guards |
| user_store.dfy | `Persistence` | the `users` table: filtered `find().one()`, `insert`, `update` |
| auth_service.dfy | `AuthService` | tokens, `determine_user_role`, `register`, `login`, `refresh_token` |
| users_service.dfy | `UsersService` | `change_user_status`, `change_role` |
| validation.dfy | `RequestValidation` | `validate_request` |

State that the source updates in place is a class, `Persistence.UserStore`. It holds a `seq<User>` field. `register` inserts into it and the two toggles update one row of it. `login`, `refresh_token` and `determine_user_role` only read the table, so they are functions of its rows.

## Choices and how the source was read

**Stand-in crypto.** Argon2id is replaced by an injective stand-in. So is HMAC-SHA256 with the base64url JSON of RFC 7519. Tokens keep the `header.payload.signature` shape, and stored hashes keep the PHC prefix of `Argon2::default()`. What the services rely on is then proved, not assumed:
- the right password verifies;
- any other password is a mismatch;
- a stored hash that cannot be parsed is an error;
- a token decodes to its own claims;
- a token is visible ASCII, like base64url text, so every token fits in an `Authorization` header whatever its email and secret hold (`TokenCodec.EncodePrintable`);
- a token signed under another secret is rejected, unless HMAC treats the two secrets as one key.

HMAC pads a key shorter than the 64-byte SHA-256 block with zero bytes (section 2 of RFC 2104). So a secret and the same secret with trailing NUL characters are one key, and they verify the same tokens (`AuthService.TrailingNulSecretVerifies`). The model reduces a secret to that effective key (`TokenCodec.KeyOf`), counting its length in UTF-8 bytes.

Both stand-ins are invertible: the digest keeps the password readable, and the signature keeps the effective key readable. Nothing is proved about one-wayness or unforgeability. No lemma relies on recovering a secret from a hash or a token.

**Expiry.** `Validation::default()` checks `exp` with 60 seconds of leeway. A token is expired only when `exp < now - 60`.
- `Claims.exp` is an `i64` (src/services/auth_service.rs:18), but jsonwebtoken (version 8 on) reads `exp` as an unsigned number and requires it whatever `validate_exp` says. A signed token with a negative `exp` therefore fails after the signature check, and before expiry is tested, as `MissingRequiredClaim("exp")` (`TokenCodec.DecodeEncoded`). The extractor classifies that failure as `INVALID_TOKEN`, because its Debug text mentions `exp` but not `expired` (`AuthMiddleware.MissingExpIsInvalidToken`).
- A token issued with a lifetime of −1 minutes therefore still verifies in the second it is issued, once the clock is a minute past the epoch (`AuthService.NegativeLifetimeWithinLeeway`).
- A lifetime of −2 minutes is the first that is rejected at once.
- The model follows the code here. It does not follow the reading in which a lifetime of −1 is already expired.

**The `Claims` extractor turns expiry validation off** (src/middleware/auth.rs:135-136). It is the extractor behind every guard, not only a legacy path.
- A correctly signed token is accepted however long ago it expired, provided its `exp` is non-negative (`AuthMiddleware.ExpiredTokenAccepted`).
- The `TOKEN_EXPIRED` classification never fires through `ExpiredSignature` (`AuthMiddleware.ExpiredTokenUnreachable`). It can still fire when some other error's text happens to contain "expired". For example, jsonwebtoken parses the header before it checks the signature, so a header naming an algorithm `expired` fails with a JSON error that quotes that word. This needs no secret, and the codec here does not model it.
- The model keeps the behaviour as written and flags it as a hazard.

**The gate key is the signing key.** src/routes/mod.rs:34-37 sets `bearer_token` to the JWT secret. Whoever passes the `BearerToken` gate holds the signing key and can mint claims for any user, tenant and role, with any non-negative `exp` (`AuthMiddleware.GateSecretForgesClaims`).

**Email uniqueness.** `register` keeps emails unique per tenant. The users migration (migration/src/m20240101000002_create_users.rs:55-61) puts a unique index on `email` alone. A `UserStore` is therefore created with or without that index:
- Under the migration's schema, a second tenant that registers an existing email passes the service's own check. The insert then fails as a database error (`AuthService.RegisterTwice`).
- Without the index, both registrations succeed. `login` looks the email up across all tenants and answers for one row only, so the other tenant's user is shadowed. `.one(db)` has no `order_by`, so which row the database returns is unspecified. The model returns the first row in store order, so in the model the tenant that registered first answers (`AuthService.SharedEmailAcrossTenants`, `AuthService.LoginAcrossTenants`).

**Handlers disagree with the taxonomy.** The HTTP handlers are not modelled, but two of them disagree with the error taxonomy:
- src/handlers/auth/login.rs:42-47 answers `USER_NOT_VALIDATED` with status 200, and every other login failure with a bare 401.
- src/handlers/auth/register.rs:25-28 turns every registration failure into 400.
- The service errors are therefore modelled as the service's own `ServiceError`, not as `AppError`.

**Validation outcome is a parameter.** `RegisterRequest` and `LoginRequest` (src/services/auth_service.rs:21-32) derive no `Validate`. tests/validation_test.rs nonetheless expects emails and password lengths to be validated.

## Model

| member | source | states |
|---|---|---|
| PasswordHasher.HashPassword | src/services/auth_service.rs:43-51 | hashing succeeds and gives a non-empty hash that differs from the password |
| PasswordHasher.ParseHash | src/services/auth_service.rs:54-55 | a parsed hash is exactly the default parameters' prefix, a salt, `$` and the digest; without the prefix nothing parses |
| PasswordHasher.VerifyPassword | src/services/auth_service.rs:53-60 | a hash that does not parse is an error rather than a mismatch, in particular one without the Argon2 prefix |
| PasswordHasher.VerifyHashedPassword | src/services/auth_service.rs:43-60 | verifying against a fresh hash of `p` yields `Ok(attempt == p)`: true for `p`, false for every other password |
| TokenCodec.Decode | src/services/auth_service.rs:64-68 | an accepted token has a non-negative `exp`, and under expiry validation `exp >= now - leeway` |
| TokenCodec.DecodeEncoded | src/services/auth_service.rs:98-102 | decoding with the signing secret returns the encoded claims exactly, except that a negative `exp` gives `MissingRequiredClaim("exp")` and, when expiry is validated, an `exp` beyond the leeway gives `ExpiredSignature` |
| TokenCodec.Encode | src/services/auth_service.rs:98-102 | the token starts with the default header's segment and a dot |
| TokenCodec.EncodePrintable | src/services/auth_service.rs:98-102 | every token is visible ASCII, whatever characters the email and the secret hold |
| TokenCodec.DecodeOtherSecret | src/middleware/auth.rs:138-142 | under another secret a token fails with `InvalidSignature`, unless the two secrets are one HMAC key, and then it decodes as under its own secret |
| TokenCodec.TrailingNulSameKey | src/middleware/auth.rs:140 | a secret shorter than the 64-byte block and the same secret with a NUL appended are one HMAC key |
| TokenCodec.DecodeWithoutExpiryIgnoresClock | src/middleware/auth.rs:135-142 | with `validate_exp = false` the clock has no effect, and a failure is `InvalidToken`, `InvalidSignature` or a missing `exp`, never `ExpiredSignature` |
| AppErrors.Render | src/utils/error.rs:67-129 | every variant renders with a 4xx or 5xx status and a non-empty code, and with a 5xx status exactly for `Database`, `Internal` and `ServiceUnavailable` |
| AppErrors.IntoResponse | src/utils/error.rs:131-136 | the body has exactly the keys `error` and `message`, which carry the variant's code and message |
| AppErrors.StatusClasses | src/utils/error.rs:67-129 | each status (401, 403, 404, 409, 500, 503, 400) is produced by exactly the variants the taxonomy assigns to it |
| AppErrors.CodeIdentifiesVariant | src/utils/error.rs:67-129 | two errors share a code iff they are the same variant: the thirteen codes are pairwise distinct |
| AppErrors.Messages | src/utils/error.rs:103-128 | `Validation(m)` renders `m` unchanged and `Forbidden(m)` renders `"Forbidden: " + m`; the `Database` message does not depend on the inner error |
| AuthMiddleware.IntoResponse | src/middleware/auth.rs:18-31 | every `AuthError` is a 401 whose body holds only `error`, set to the variant's code |
| AuthMiddleware.CodesDistinct | src/middleware/auth.rs:20-24 | the three codes identify the three variants |
| AuthMiddleware.AuthorizationText | src/middleware/auth.rs:57-60 | the header is readable iff it is present and consists of tab or visible ASCII characters, and it is then returned unchanged |
| AuthMiddleware.BearerToken | src/middleware/auth.rs:41-101 | 500 without `AuthState`, before the header is read; otherwise success iff the readable header equals `"Bearer " + bearer_token`, and 401 for every other outcome |
| AuthMiddleware.ClassifyIsLowercaseTest | src/middleware/auth.rs:150-153 | the four tests on the error text amount to "the lower-cased text contains `expired`" |
| AuthMiddleware.ClassifyDecodeFailure | src/middleware/auth.rs:146-159 | a decode failure becomes `ExpiredToken` iff its lower-cased text contains `expired`, and `InvalidToken` otherwise; never `MissingToken` |
| AuthMiddleware.ExtractClaims | src/middleware/auth.rs:103-170 | checks run in order: no `AuthState` gives `InvalidToken`, no readable header gives `MissingToken`, no `Bearer ` prefix gives `InvalidToken`; after the prefix the result is exactly the decode of the stripped token under the extractor's validation, its claims unchanged on success and its error classified by its Debug text on failure |
| AuthMiddleware.NonExpiryFailuresAreInvalidToken | src/middleware/auth.rs:146-159 | the three failures of decoding without expiry validation are each classified as `InvalidToken` |
| AuthMiddleware.MissingExpIsInvalidToken | src/middleware/auth.rs:146-159 | the missing-`exp` failure that a negative `exp` causes is classified as `InvalidToken`, not `ExpiredToken` |
| AuthMiddleware.ExpiredTokenUnreachable | src/middleware/auth.rs:135-159 | over the modelled codec the extractor never yields `ExpiredToken`, because expiry validation is off and so `ExpiredSignature` never occurs |
| AuthMiddleware.TokenHeaderReadable | src/middleware/auth.rs:119-126 | the header `Bearer <token>` of every encoded token passes `to_str` |
| AuthMiddleware.ExpiredTokenAccepted | src/middleware/auth.rs:135-159 | for any claims and any secret, a header carrying a correctly signed token yields exactly its claims whatever the clock, however far in the past `exp` lies, and `InvalidToken` exactly when `exp` is negative |
| AuthMiddleware.PrefixIsExact | src/middleware/auth.rs:128-131 | `bearer <t>` and `Bearerx<t>` give `InvalidToken`, and `bearer <token>` does not pass the gate: the prefix is exact and case-sensitive |
| AuthMiddleware.GateSecretForgesClaims | src/routes/mod.rs:34-37 | when the gate token equals the signing secret, whoever passes the gate can mint a token that the extractor accepts for arbitrary claims with a non-negative `exp` (and rejects as `InvalidToken` otherwise) |
| AuthMiddleware.ExcludedPrefix | src/middleware/auth.rs:128 | a header whose first or seventh character differs from `Bearer ` has no such prefix |
| AccessGuards.CheckTenantAccess | src/utils/auth.rs:11-16 | Ok iff the claims' tenant equals the tenant, otherwise 403 |
| AccessGuards.CheckRole | src/utils/auth.rs:18-23 | Ok iff the role is exactly the required one, otherwise 403, so Admin does not satisfy Regular |
| AccessGuards.CheckTenantAndRole | src/utils/auth.rs:25-33 | Ok iff both hold; a tenant mismatch is the tenant check's rejection, so the tenant check comes first |
| AccessGuards.AdminRole | src/utils/auth.rs:43-57 | the extractor's rejection is passed through as its 401 response; a non-admin gets 403 `FORBIDDEN`/`ADMIN_ROLE_REQUIRED`; success returns the claims unchanged |
| AccessGuards.AdminRoleWithTenant | src/utils/auth.rs:71-106 | checks run in order: claims, admin role (403 `ADMIN_ROLE_REQUIRED`), path value (400 `INVALID_TENANT_ID`), tenant match (403 `ACCESS_DENIED_FOR_THIS_TENANT`); on success the returned tenant equals both the path value and the claims' tenant |
| AccessGuards.TenantAccess | src/utils/auth.rs:120-147 | the same as `AdminRoleWithTenant` without the role check |
| AccessGuards.NonAdminWrongTenantGetsAdminRoleRequired | src/utils/auth.rs:76-100 | a regular user with the wrong tenant gets `ADMIN_ROLE_REQUIRED` from the admin guard and `ACCESS_DENIED_FOR_THIS_TENANT` from the tenant guard |
| AccessGuards.AdminRoleWithTenantIsBoth | src/utils/auth.rs:71-147 | the admin tenant guard succeeds iff the tenant guard and the admin guard do, and then gives the same principal |
| AccessGuards.GuardsAgreeWithChecks | src/utils/auth.rs:11-33 | once claims and a path value exist, each guard succeeds iff the matching `check_*` function is Ok |
| AccessGuards.TenantAccessIgnoresRole | src/utils/auth.rs:120-147 | two signed tokens differing only in role fare alike at the tenant guard |
| Persistence.FindIndex | src/services/auth_service.rs:112-116 | returns the first row that satisfies every filter, and none iff no row does |
| Persistence.FindOne | src/services/auth_service.rs:157-161 | `.one()` returns a stored row satisfying every filter, and none iff none does |
| Persistence.Filters | src/services/users_service.rs:15-18 | one filter means its condition and two chained filters mean the conjunction |
| Persistence.FindByUniqueEmail | migration/src/m20240101000002_create_users.rs:55-61 | under the unique email index, a lookup by email returns the one row holding it |
| Persistence.FindByUniqueId | migration/src/m20240101000002_create_users.rs:14-19 | under the primary key, a lookup by id returns the one row holding it |
| Persistence.UserStore.Insert | src/services/auth_service.rs:137 | appends the row iff its id is new and, under the unique index, its email is new; otherwise nothing changes; the constraints are preserved |
| Persistence.UserStore.Update | src/services/users_service.rs:27-29 | replaces the row at its position and nothing else, keeping the constraints |
| AuthService.VerifyToken | src/services/auth_service.rs:62-80 | an accepted token is at most 60 seconds past its `exp` |
| AuthService.GenerateToken | src/services/auth_service.rs:82-104 | at issue time the token verifies to the given identity with `exp = now + 60 * minutes`, except that a negative `exp` is `MissingRequiredClaim("exp")` and a lifetime below −1 minutes is `ExpiredSignature` |
| AuthService.TokenRoundTrip | tests/auth_service_test.rs:29-55 | a generated token verifies to exactly its identity and `exp` until 60 s after `exp`, and is `ExpiredSignature` afterwards; a negative `exp` is `MissingRequiredClaim("exp")` at any time |
| AuthService.TokenOtherSecret | tests/auth_service_test.rs:65-84 | verifying under a secret that is not the same HMAC key fails with `InvalidSignature`; under the same key it verifies as under the signing secret |
| AuthService.TrailingNulSecretVerifies | src/services/auth_service.rs:62-68 | a secret shorter than a block and the same secret with a NUL appended verify the same tokens |
| AuthService.MalformedTokenRejected | tests/auth_service_test.rs:57-63 | `invalid.token.here` fails verification under any secret |
| AuthService.NegativeLifetimeWithinLeeway | src/services/auth_service.rs:90 | a lifetime of −1 minutes verifies at issue time exactly when the clock reads at least 60 s, while −2 minutes fails with `ExpiredSignature` once its `exp` is non-negative |
| AuthService.DetermineUserRole | src/services/auth_service.rs:211-226 | Admin iff the tenant has no user yet, otherwise Regular |
| AuthService.Authenticate | src/services/auth_service.rs:163-180 | the password is checked before the status; success iff the password verifies and the user is Active, and the response carries that user and a token for it |
| AuthService.Login | src/services/auth_service.rs:151-181 | an unknown email gives `InvalidCredentials`; success only for a stored, Active user with that email whose hash verifies the password, with a token for that user |
| AuthService.LoginTakesFirstByEmail | src/services/auth_service.rs:157-161 | login answers for the row that the email lookup returns, whatever its tenant; in the model that is the first in store order |
| AuthService.LoginHashedUser | src/services/auth_service.rs:157-181 | a wrong password gives `InvalidCredentials` even for an inactive user; the right one gives `UserNotValidated` for an inactive user and otherwise the user and a token that verifies to its identity (for a lifetime of at least −1 minutes and a non-negative `exp`) |
| AuthService.LoginAcrossTenants | src/services/auth_service.rs:157-159 | with two tenants sharing an email, login serves only the user the lookup returns, the first in store order, and the other is shadowed |
| AuthService.RefreshToken | src/services/auth_service.rs:183-209 | an unknown `user_id` gives `UserNotFound`; success only for the stored Active user with that id, with a token for the stored identity |
| AuthService.RefreshReadsOnlyUserId | src/services/auth_service.rs:189-193 | claims that agree on `user_id` refresh alike, so the role, tenant, email and `exp` they present are ignored |
| AuthService.RefreshStoredUser | src/services/auth_service.rs:189-208 | an inactive stored user gives `UserNotValidated`; an active one gets a token for its current stored identity, which verifies to it (for a lifetime of at least −1 minutes and a non-negative `exp`) |
| AuthService.Register | src/services/auth_service.rs:106-149 | a duplicate email in the tenant gives `USER_ALREADY_EXISTS_FOR_TENANT` and an unchanged store; otherwise exactly one user is appended (the request's tenant and email, the password's hash, status Active, Admin iff the tenant was empty) and a token for it is issued, unless the insert is refused; per-tenant email uniqueness is preserved |
| AuthService.OnboardTenant | src/services/auth_service.rs:122 | in a fresh tenant the first registrant is Admin, the second Regular, and the first can log in |
| AuthService.RegisterTwice | src/services/auth_service.rs:112-120 | under the migration's schema, a repeated email is refused in the same tenant and fails at the insert in another tenant |
| AuthService.SharedEmailAcrossTenants | src/services/auth_service.rs:112-114 | without the unique index, two tenants can register one email, and login then returns one of the two users (the first in store order) |
| UsersService.ToggledStatus | src/services/users_service.rs:22-25 | the new status differs from the old |
| UsersService.ToggledRole | src/services/users_service.rs:46-49 | the new role differs from the old |
| UsersService.TogglesAreInvolutions | src/services/users_service.rs:22-49 | toggling twice restores the status and the role |
| UsersService.FindTarget | src/services/users_service.rs:15-20 | finds a row matching both id and tenant, and none iff no row does |
| UsersService.ChangeUserStatus | src/services/users_service.rs:10-32 | not found iff no row matches both id and tenant, and then the store is unchanged; otherwise only that row's status flips, `updated_at` included unchanged, and the updated row is returned |
| UsersService.ChangeRole | src/services/users_service.rs:34-56 | the same for the role |
| UsersService.ToggleStatusTwice | src/services/users_service.rs:10-32 | changing the status twice gives the store back |
| RequestValidation.Segment | src/middleware/validation.rs:11-18 | a segment starts with its field name |
| RequestValidation.GroupSegments | src/middleware/validation.rs:10-19 | one segment per error of the field, in order, each `field: message` or `field: "code"` |
| RequestValidation.Segments | src/middleware/validation.rs:6-21 | every segment of the flattened list starts with the name of one of the fields and `": "` |
| RequestValidation.Message | src/middleware/validation.rs:23 | the joined message is empty exactly when no field reported an error |
| RequestValidation.ValidateRequest | src/middleware/validation.rs:4-27 | Ok iff validation passed, returning the payload unchanged; any failure is `AppError::Validation` carrying the joined segments |
| RequestValidation.SegmentCount | src/middleware/validation.rs:6-21 | the number of segments is the total number of errors across all fields |
| RequestValidation.SegmentsAppend | src/middleware/validation.rs:9 | flattening distributes over concatenation of field groups |
| RequestValidation.SegmentsWithout | src/middleware/validation.rs:9 | removing one field group removes exactly its segments |
| RequestValidation.SegmentsIgnoreFieldOrder | src/middleware/validation.rs:7-9 | any order of the field groups yields the same multiset of segments |
| RequestValidation.SegmentPosition | src/middleware/validation.rs:9-19 | locates each error's segment in the flattened list |
| RequestValidation.FailingFieldNamed | src/middleware/validation.rs:9-23 | every field with at least one error is named in the joined message |
| RequestValidation.ValidationNamesFields | tests/validation_test.rs:16-42 | a failed validation's details contain the name of every failing field |

## Left out

- Argon2id and the PHC hash format: replaced by an injective stand-in. Only hashes with the default parameters' prefix are recognised, and other well-formed PHC strings count as malformed.
- RFC 7519 wire format, base64url and HMAC-SHA256 (section 3.2 of RFC 7518): replaced by a payload of length-prefixed fields written as decimal code points, and a stand-in signature over the same `header.payload` input. Both stand-ins are invertible, so one-wayness and unforgeability are not modelled.
- TokenCodec.Decode: compares the header segment with the default one, parses the claims, then checks the signature and expiry. jsonwebtoken parses the header (base64url, JSON, algorithm) first, then checks the signature, then parses the claims, then validates. It also has more error kinds (Base64, Json, algorithm). Only `InvalidToken`, `InvalidSignature`, `MissingRequiredClaim` and `ExpiredSignature` are modelled. The `exp` handling (unsigned and required) follows jsonwebtoken 8 and later; the crate version is not part of this model. A token with both malformed claims and a wrong signature is `InvalidToken` here and `InvalidSignature` there. Both become `InvalidToken` in the extractor and an error in `verify_token`.
- AuthMiddleware.ExpiredTokenUnreachable: holds only over the modelled codec. In the source, a header that names an unknown algorithm `expired` (for example the segment `eyJhbGciOiJleHBpcmVkIn0`, the base64url of `{"alg":"expired"}`) fails with a JSON error whose Debug text contains "expired". The extractor then returns `ExpiredToken`, and no secret is needed. Header parsing is not modelled.
- TokenCodec.KeyOf: a key longer than the block is hashed by HMAC. The model keeps such a key whole, so it does not capture the case where a short key equals the SHA-256 digest of a long one.
- AuthService.LoginTakesFirstByEmail: store order stands in for the unspecified order in which `.one(db)` without `order_by` returns rows. The source promises only some row holding the email, and an update can change which one. The same applies to AuthService.LoginAcrossTenants, AuthService.SharedEmailAcrossTenants and Persistence.FindOne.
- Randomness, clock and ids: the salt from `OsRng`, `Utc::now` and UUIDv7 generation are parameters. UUIDs are naturals compared for equality.
- Lower-casing: `to_lowercase` is modelled on ASCII only.
- `HeaderValue::to_str`: modelled as "tab or visible ASCII". Obsolete header bytes are not modelled.
- AuthService.GenerateToken: `i64` overflow of `Duration::minutes` and of the timestamp addition (a panic in the source) is not modelled. `exp` is an unbounded integer.
- Debug form of a validator code: modelled as the code in quotes. Escaping of quotes and backslashes inside it is not modelled.
- Database errors other than a refused insert: connection failures and `DbErr` from `update` or `find` are left out, and the store calls always succeed otherwise.
- Concurrency: requests are modelled one at a time. The read-then-insert of `determine_user_role` and `register` can give two admins for one tenant under concurrent first registrations. That race is not modelled.
- `tenant_id` foreign key against `tenants`: not modelled.
- HTTP handlers, routing, configuration, CORS, tracing, OpenAPI documentation and `tenants_service.rs`: plumbing without decision logic.
- `Path::<Uuid>` extraction: only its outcome is modelled (a tenant id or a 400). On routes with two path parameters axum would reject the single-`Uuid` extraction. Routing is not part of this model.
- The `validator` crate: the outcome of `validate()` is a parameter, and which rules hold for which request type is not modelled.
