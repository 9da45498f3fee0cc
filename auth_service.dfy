/**
 * `AuthService` of src/services/auth_service.rs: token issue and
 * verification, and the `register`, `login` and `refresh_token` flows over
 * the user store. The clock, the UUIDv7 of a new user and the salt drawn
 * from the OS generator are parameters. `login` and `refresh_token` only
 * read the store, so they are functions of its rows.
 */
module AuthService {
  import opened Domain
  import opened Persistence
  import PasswordHasher
  import TokenCodec

  datatype RegisterRequest = RegisterRequest(tenantId: Uuid, email: string, password: string)

  datatype LoginRequest = LoginRequest(email: string, password: string)

  datatype AuthResponse = AuthResponse(token: string, user: User)

  /** The `anyhow` errors of the service, named after their messages. */
  datatype ServiceError =
    | UserAlreadyExistsForTenant  // "USER_ALREADY_EXISTS_FOR_TENANT"
    | InvalidCredentials          // "INVALID_CREDENTIALS"
    | UserNotValidated            // "USER_NOT_VALIDATED"
    | UserNotFound                // "User not found"
    | MalformedPasswordHash       // "Failed to parse password hash: .."
    | DatabaseError               // the insert was refused by a table constraint

  // ---------------------------------------------------------------- tokens

  /** `verify_token`: decoding under `Validation::default()` at clock `now`. */
  function VerifyToken(token: string, secret: string, now: Timestamp): (r: Result<Claims, TokenCodec.ErrorKind>)
    ensures r.Success? ==> r.value.exp + 60 >= now
  {
    TokenCodec.Decode(token, secret, TokenCodec.DefaultValidation, now)
  }

  /**
   * `generate_token` at clock `now`: the claims of the user with
   * `exp = now + 60 * expiration_minutes`, signed with `secret`. At the
   * moment it is issued the token verifies to that identity, unless its `exp`
   * is negative (a missing claim) or its lifetime is below -1 minutes.
   */
  function GenerateToken(userId: Uuid, tenantId: Uuid, email: string, role: UserRole, secret: string,
                         expirationMinutes: int, now: Timestamp): (token: string)
    ensures var exp := now + 60 * expirationMinutes;
      VerifyToken(token, secret, now)
      == if exp < 0 then Failure(TokenCodec.MissingRequiredClaim("exp"))
         else if expirationMinutes < -1 then Failure(TokenCodec.ExpiredSignature)
         else Success(Claims(userId, tenantId, email, role, exp))
  {
    var claims := Claims(userId, tenantId, email, role, now + 60 * expirationMinutes);
    TokenCodec.DecodeEncoded(claims, secret, TokenCodec.DefaultValidation, now);
    TokenCodec.Encode(claims, secret)
  }

  /** The token issued for a stored user. */
  function TokenFor(u: User, secret: string, expirationMinutes: int, now: Timestamp): string
  {
    GenerateToken(u.id, u.tenantId, u.email, u.role, secret, expirationMinutes, now)
  }

  /**
   * The round trip of auth_service_test.rs: a token verifies to exactly the
   * identity it was issued for until 60 seconds of leeway after its `exp`,
   * and is reported expired after that; a negative `exp` is a missing claim.
   */
  lemma {:induction false} TokenRoundTrip(userId: Uuid, tenantId: Uuid, email: string, role: UserRole, secret: string,
                                          expirationMinutes: int, issuedAt: Timestamp, now: Timestamp)
    ensures var exp := issuedAt + 60 * expirationMinutes;
      VerifyToken(GenerateToken(userId, tenantId, email, role, secret, expirationMinutes, issuedAt), secret, now)
      == if exp < 0 then Failure(TokenCodec.MissingRequiredClaim("exp"))
         else if now <= exp + 60 then Success(Claims(userId, tenantId, email, role, exp))
         else Failure(TokenCodec.ExpiredSignature)
  {
    var claims := Claims(userId, tenantId, email, role, issuedAt + 60 * expirationMinutes);
    TokenCodec.DecodeEncoded(claims, secret, TokenCodec.DefaultValidation, now);
  }

  /**
   * A token fails verification with `InvalidSignature` under a secret that is
   * not the same HMAC key as the one it was signed with, and verifies as
   * under its own secret otherwise.
   */
  lemma {:induction false} TokenOtherSecret(userId: Uuid, tenantId: Uuid, email: string, role: UserRole, secret: string,
                                            other: string, expirationMinutes: int, issuedAt: Timestamp, now: Timestamp)
    ensures var token := GenerateToken(userId, tenantId, email, role, secret, expirationMinutes, issuedAt);
      VerifyToken(token, other, now)
      == if TokenCodec.KeyOf(other) == TokenCodec.KeyOf(secret) then VerifyToken(token, secret, now)
         else Failure(TokenCodec.InvalidSignature)
  {
    var claims := Claims(userId, tenantId, email, role, issuedAt + 60 * expirationMinutes);
    TokenCodec.DecodeOtherSecret(claims, secret, other, TokenCodec.DefaultValidation, now);
  }

  /** The secret and the secret with a NUL appended verify the same tokens, when it is shorter than a block. */
  lemma TrailingNulSecretVerifies(userId: Uuid, tenantId: Uuid, email: string, role: UserRole, secret: string,
                                  expirationMinutes: int, issuedAt: Timestamp, now: Timestamp)
    requires TokenCodec.Utf8Length(secret) < TokenCodec.BlockSize
    ensures var token := GenerateToken(userId, tenantId, email, role, secret, expirationMinutes, issuedAt);
      VerifyToken(token, secret + "\0", now) == VerifyToken(token, secret, now)
  {
    TokenCodec.TrailingNulSameKey(secret);
    TokenOtherSecret(userId, tenantId, email, role, secret, secret + "\0", expirationMinutes, issuedAt, now);
  }

  /** The malformed token of auth_service_test.rs is rejected under any secret. */
  lemma MalformedTokenRejected(secret: string, now: Timestamp)
    ensures VerifyToken("invalid.token.here", secret, now).Failure?
  {
  }

  /**
   * The leeway makes a token issued with a lifetime of -1 minutes still
   * verify in the second it was issued (once the clock is far enough past the
   * epoch for its `exp` to be non-negative); -2 minutes is the first lifetime
   * rejected at once as expired.
   */
  lemma {:induction false} NegativeLifetimeWithinLeeway(userId: Uuid, tenantId: Uuid, email: string, role: UserRole,
                                                        secret: string, now: Timestamp)
    ensures VerifyToken(GenerateToken(userId, tenantId, email, role, secret, -1, now), secret, now).Success? <==> now >= 60
    ensures now >= 120 ==>
      VerifyToken(GenerateToken(userId, tenantId, email, role, secret, -2, now), secret, now) == Failure(TokenCodec.ExpiredSignature)
  {
    TokenRoundTrip(userId, tenantId, email, role, secret, -1, now, now);
    TokenRoundTrip(userId, tenantId, email, role, secret, -2, now, now);
  }

  // ---------------------------------------------------------------- queries

  /** `determine_user_role`: the first user of a tenant becomes its admin. */
  function DetermineUserRole(users: seq<User>, tenantId: Uuid): (r: UserRole)
    ensures r == Admin <==> forall u :: u in users ==> u.tenantId != tenantId
  {
    forall u ensures MatchesAll([TenantIdEq(tenantId)], u) <==> u.tenantId == tenantId {
      Filters(TenantIdEq(tenantId), TenantIdEq(tenantId), u);
    }
    if FindOne(users, [TenantIdEq(tenantId)]).Some? then Regular else Admin
  }

  /** Some row holds this email in this tenant. */
  predicate TenantHasEmail(users: seq<User>, tenantId: Uuid, email: string)
  {
    exists u :: u in users && u.email == email && u.tenantId == tenantId
  }

  /**
   * The part of `login` after the email lookup: the password is checked
   * before the status, so an inactive user with a wrong password gets
   * `InvalidCredentials`.
   */
  function Authenticate(user: User, password: string, secret: string, expirationMinutes: int, now: Timestamp)
    : (r: Result<AuthResponse, ServiceError>)
    ensures r.Success? <==> PasswordHasher.VerifyPassword(password, user.passwordHash) == Success(true) && user.status == Active
    ensures PasswordHasher.VerifyPassword(password, user.passwordHash).Failure? ==> r == Failure(MalformedPasswordHash)
    ensures PasswordHasher.VerifyPassword(password, user.passwordHash) == Success(false) ==> r == Failure(InvalidCredentials)
    ensures r.Success? ==> r.value == AuthResponse(TokenFor(user, secret, expirationMinutes, now), user)
  {
    match PasswordHasher.VerifyPassword(password, user.passwordHash)
    case Failure(_) => Failure(MalformedPasswordHash)
    case Success(matches) =>
      if !matches then Failure(InvalidCredentials)
      else if user.status != Active then Failure(UserNotValidated)
      else Success(AuthResponse(TokenFor(user, secret, expirationMinutes, now), user))
  }

  /** `login`: the row the email lookup returns, in any tenant, then `Authenticate`. */
  function Login(users: seq<User>, req: LoginRequest, secret: string, expirationMinutes: int, now: Timestamp)
    : (r: Result<AuthResponse, ServiceError>)
    ensures (forall u :: u in users ==> u.email != req.email) ==> r == Failure(InvalidCredentials)
    ensures r.Success? ==>
      && r.value.user in users && r.value.user.email == req.email && r.value.user.status == Active
      && PasswordHasher.VerifyPassword(req.password, r.value.user.passwordHash) == Success(true)
      && r.value.token == TokenFor(r.value.user, secret, expirationMinutes, now)
  {
    forall u ensures MatchesAll([EmailEq(req.email)], u) <==> u.email == req.email {
      Filters(EmailEq(req.email), EmailEq(req.email), u);
    }
    match FindOne(users, [EmailEq(req.email)])
    case None => Failure(InvalidCredentials)
    case Some(user) => Authenticate(user, req.password, secret, expirationMinutes, now)
  }

  /**
   * The request names no tenant: when several rows share the email, the one
   * the lookup returns answers, which in the model is the first in store order.
   */
  lemma {:induction false} LoginTakesFirstByEmail(users: seq<User>, k: nat, req: LoginRequest, secret: string,
                                                  expirationMinutes: int, now: Timestamp)
    requires k < |users| && users[k].email == req.email
    requires forall j :: 0 <= j < k ==> users[j].email != req.email
    ensures Login(users, req, secret, expirationMinutes, now)
      == Authenticate(users[k], req.password, secret, expirationMinutes, now)
  {
    var fs := [EmailEq(req.email)];
    assert FindOne(users, fs) == Some(users[k]) by {
      Filters(EmailEq(req.email), EmailEq(req.email), users[k]);
      var i := FindIndex(users, fs).value;
      Filters(EmailEq(req.email), EmailEq(req.email), users[i]);
    }
  }

  /**
   * Login against a user whose stored hash was made from `password`, in a
   * store with the unique email index: a wrong password is
   * `InvalidCredentials` whatever the status, the right one is
   * `UserNotValidated` for an inactive user, and otherwise the response
   * carries that user and a token for its identity.
   */
  lemma LoginHashedUser(users: seq<User>, k: nat, attempt: string, password: string, salt: string, secret: string,
                        expirationMinutes: int, now: Timestamp)
    requires UniqueEmails(users) && k < |users|
    requires PasswordHasher.IsSalt(salt) && users[k].passwordHash == PasswordHasher.HashPassword(password, salt)
    ensures var u := users[k];
      var r := Login(users, LoginRequest(u.email, attempt), secret, expirationMinutes, now);
      && (attempt != password ==> r == Failure(InvalidCredentials))
      && (attempt == password && u.status != Active ==> r == Failure(UserNotValidated))
      && (attempt == password && u.status == Active ==> r.Success? && r.value.user == u)
      && (r.Success? && expirationMinutes >= -1 && now + 60 * expirationMinutes >= 0 ==>
            VerifyToken(r.value.token, secret, now) == Success(ClaimsFor(u, now + 60 * expirationMinutes)))
  {
    FindByUniqueEmail(users, k);
    PasswordHasher.VerifyHashedPassword(password, attempt, salt);
  }

  /**
   * Two rows with one email in different tenants (what the per-tenant check
   * of `register` allows when the unique index is absent): login answers for
   * the row the lookup returns, here the first, and the other is shadowed.
   */
  lemma LoginAcrossTenants(a: User, b: User, password: string, secret: string, expirationMinutes: int, now: Timestamp)
    requires a.email == b.email && a.tenantId != b.tenantId
    ensures Login([a, b], LoginRequest(b.email, password), secret, expirationMinutes, now)
      == Authenticate(a, password, secret, expirationMinutes, now)
    ensures Login([a, b], LoginRequest(b.email, password), secret, expirationMinutes, now).Success? ==>
      Login([a, b], LoginRequest(b.email, password), secret, expirationMinutes, now).value.user.tenantId == a.tenantId
  {
    LoginTakesFirstByEmail([a, b], 0, LoginRequest(b.email, password), secret, expirationMinutes, now);
  }

  /**
   * `refresh_token`: the user is looked up by `claims.user_id` alone and the
   * new token carries the stored identity, not the incoming claims.
   */
  function RefreshToken(users: seq<User>, claims: Claims, secret: string, expirationMinutes: int, now: Timestamp)
    : (r: Result<AuthResponse, ServiceError>)
    ensures (forall u :: u in users ==> u.id != claims.userId) ==> r == Failure(UserNotFound)
    ensures r.Success? ==>
      && r.value.user in users && r.value.user.id == claims.userId && r.value.user.status == Active
      && r.value.token == TokenFor(r.value.user, secret, expirationMinutes, now)
    ensures r.Failure? ==> r.error == UserNotFound || r.error == UserNotValidated
  {
    forall u ensures MatchesAll([IdEq(claims.userId)], u) <==> u.id == claims.userId {
      Filters(IdEq(claims.userId), IdEq(claims.userId), u);
    }
    match FindOne(users, [IdEq(claims.userId)])
    case None => Failure(UserNotFound)
    case Some(user) =>
      if user.status != Active then Failure(UserNotValidated)
      else Success(AuthResponse(TokenFor(user, secret, expirationMinutes, now), user))
  }

  /** Only `user_id` of the presented claims matters. */
  lemma RefreshReadsOnlyUserId(users: seq<User>, c1: Claims, c2: Claims, secret: string, expirationMinutes: int, now: Timestamp)
    requires c1.userId == c2.userId
    ensures RefreshToken(users, c1, secret, expirationMinutes, now) == RefreshToken(users, c2, secret, expirationMinutes, now)
  {
  }

  /**
   * Refreshing for a stored user: an inactive one is `UserNotValidated`, an
   * active one gets a token for its current role, tenant and email, even if
   * the presented claims are stale.
   */
  lemma RefreshStoredUser(users: seq<User>, k: nat, claims: Claims, secret: string, expirationMinutes: int, now: Timestamp)
    requires UniqueIds(users) && k < |users| && users[k].id == claims.userId
    ensures var r := RefreshToken(users, claims, secret, expirationMinutes, now);
      && (users[k].status != Active ==> r == Failure(UserNotValidated))
      && (users[k].status == Active ==> r.Success? && r.value.user == users[k])
      && (r.Success? && expirationMinutes >= -1 && now + 60 * expirationMinutes >= 0 ==>
            VerifyToken(r.value.token, secret, now) == Success(ClaimsFor(users[k], now + 60 * expirationMinutes)))
  {
    FindByUniqueId(users, k);
  }

  // ---------------------------------------------------------------- register

  /**
   * `register`: refused when the tenant already holds the email; otherwise
   * the new user gets the role `determine_user_role` chooses, status Active
   * and the hash of the password, and is inserted. The insert itself fails,
   * leaving the store unchanged, when the id is taken or, under the unique
   * email index, the email is taken in any tenant.
   */
  method Register(db: UserStore, req: RegisterRequest, secret: string, expirationMinutes: int, now: Timestamp,
                  newId: Uuid, salt: string) returns (r: Result<AuthResponse, ServiceError>)
    requires db.Valid() && PasswordHasher.IsSalt(salt)
    modifies db
    ensures db.Valid()
    ensures TenantHasEmail(old(db.users), req.tenantId, req.email) ==> r == Failure(UserAlreadyExistsForTenant)
    ensures !TenantHasEmail(old(db.users), req.tenantId, req.email) && r.Failure? ==> r.error == DatabaseError
    ensures r.Success? <==>
      && !TenantHasEmail(old(db.users), req.tenantId, req.email)
      && forall v :: v in old(db.users) ==> v.id != newId && (db.uniqueEmail ==> v.email != req.email)
    ensures r.Failure? ==> db.users == old(db.users)
    ensures r.Success? ==>
      var u := r.value.user;
      && db.users == old(db.users) + [u]
      && u.id == newId && u.tenantId == req.tenantId && u.email == req.email
      && u.passwordHash == PasswordHasher.HashPassword(req.password, salt)
      && (u.role == Admin <==> forall v :: v in old(db.users) ==> v.tenantId != req.tenantId)
      && u.status == Active && u.createdAt == now && u.updatedAt == now
      && r.value.token == TokenFor(u, secret, expirationMinutes, now)
    ensures UniqueTenantEmails(old(db.users)) ==> UniqueTenantEmails(db.users)
  {
    forall u ensures MatchesAll([EmailEq(req.email), TenantIdEq(req.tenantId)], u)
                     <==> u.email == req.email && u.tenantId == req.tenantId {
      Filters(EmailEq(req.email), TenantIdEq(req.tenantId), u);
    }
    var existing := FindOne(db.users, [EmailEq(req.email), TenantIdEq(req.tenantId)]);
    if existing.Some? {
      return Failure(UserAlreadyExistsForTenant);
    }
    var role := DetermineUserRole(db.users, req.tenantId);
    var passwordHash := PasswordHasher.HashPassword(req.password, salt);
    var user := User(newId, req.tenantId, req.email, passwordHash, role, Active, now, now);
    var inserted := db.Insert(user);
    if !inserted {
      return Failure(DatabaseError);
    }
    var token := TokenFor(user, secret, expirationMinutes, now);
    return Success(AuthResponse(token, user));
  }

  // ---------------------------------------------------------------- flows

  /**
   * A fresh tenant: its first registrant becomes admin, the second a
   * regular user, and the first can then log in with its password.
   */
  method OnboardTenant(tenantId: Uuid, emailA: string, emailB: string, password: string, secret: string,
                       expirationMinutes: int, now: Timestamp, idA: Uuid, idB: Uuid, salt: string)
    returns (first: Result<AuthResponse, ServiceError>, second: Result<AuthResponse, ServiceError>,
             login: Result<AuthResponse, ServiceError>)
    requires emailA != emailB && idA != idB && PasswordHasher.IsSalt(salt)
    ensures first.Success? && first.value.user.role == Admin
    ensures second.Success? && second.value.user.role == Regular
    ensures login.Success? && login.value.user == first.value.user
  {
    var db := new UserStore(true);
    first := Register(db, RegisterRequest(tenantId, emailA, password), secret, expirationMinutes, now, idA, salt);
    second := Register(db, RegisterRequest(tenantId, emailB, password), secret, expirationMinutes, now, idB, salt);
    assert first.value.user in [first.value.user];
    login := Login(db.users, LoginRequest(emailA, password), secret, expirationMinutes, now);
    LoginHashedUser(db.users, 0, password, password, salt, secret, expirationMinutes, now);
  }

  /**
   * Registering an email a second time under the migration's schema: in
   * the same tenant the service refuses it; in another tenant its own check
   * passes and the unique email index refuses the insert instead.
   */
  method RegisterTwice(tenantId: Uuid, otherTenant: Uuid, email: string, password: string, secret: string,
                       expirationMinutes: int, now: Timestamp, id1: Uuid, id2: Uuid, id3: Uuid, salt: string)
    returns (sameTenant: Result<AuthResponse, ServiceError>, otherTenantResult: Result<AuthResponse, ServiceError>)
    requires tenantId != otherTenant && id1 != id2 && id1 != id3 && PasswordHasher.IsSalt(salt)
    ensures sameTenant == Failure(UserAlreadyExistsForTenant)
    ensures otherTenantResult == Failure(DatabaseError)
  {
    var db := new UserStore(true);
    var first := Register(db, RegisterRequest(tenantId, email, password), secret, expirationMinutes, now, id1, salt);
    sameTenant := Register(db, RegisterRequest(tenantId, email, password), secret, expirationMinutes, now, id2, salt);
    assert TenantHasEmail(db.users, tenantId, email) by {
      assert first.value.user in db.users;
    }
    otherTenantResult := Register(db, RegisterRequest(otherTenant, email, password), secret, expirationMinutes, now, id3, salt);
  }

  /**
   * Without the unique email index, the per-tenant check lets two tenants
   * register one email, and login by that email then lands in one tenant
   * only: the one the lookup returns, here the tenant that registered first.
   */
  method SharedEmailAcrossTenants(tenant1: Uuid, tenant2: Uuid, email: string, password: string, secret: string,
                                  expirationMinutes: int, now: Timestamp, id1: Uuid, id2: Uuid, salt: string)
    returns (first: Result<AuthResponse, ServiceError>, second: Result<AuthResponse, ServiceError>,
             login: Result<AuthResponse, ServiceError>)
    requires tenant1 != tenant2 && id1 != id2 && PasswordHasher.IsSalt(salt)
    ensures first.Success? && second.Success?
    ensures first.value.user.tenantId == tenant1 && second.value.user.tenantId == tenant2
    ensures login.Success? && login.value.user == first.value.user
  {
    var db := new UserStore(false);
    first := Register(db, RegisterRequest(tenant1, email, password), secret, expirationMinutes, now, id1, salt);
    second := Register(db, RegisterRequest(tenant2, email, password), secret, expirationMinutes, now, id2, salt);
    login := Login(db.users, LoginRequest(email, password), secret, expirationMinutes, now);
    LoginTakesFirstByEmail(db.users, 0, LoginRequest(email, password), secret, expirationMinutes, now);
    PasswordHasher.VerifyHashedPassword(password, password, salt);
  }
}
