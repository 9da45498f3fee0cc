/**
 * The entities shared by every component of the authentication core:
 * failure-compatible wrappers, the two-valued role and status enums,
 * the user record, the token claims and an HTTP response.
 */
module Domain {

  /** An optional value, usable with `:-`. */
  datatype Option<+T> = None | Some(value: T) {
    predicate IsFailure() { None? }

    function PropagateFailure<U>(): Option<U>
      requires None?
    {
      None
    }

    function Extract(): T
      requires Some?
    {
      value
    }
  }

  /** A success value or an error value, usable with `:-`. */
  datatype Result<+R, +E> = Success(value: R) | Failure(error: E) {
    predicate IsFailure() { Failure? }

    function PropagateFailure<U>(): Result<U, E>
      requires Failure?
    {
      Failure(error)
    }

    function Extract(): R
      requires Success?
    {
      value
    }
  }

  /** Identifiers (UUIDv7 in the system) are opaque; only equality matters. */
  type Uuid = nat

  /** Seconds since the Unix epoch. */
  type Timestamp = int

  datatype UserRole = Admin | Regular

  datatype UserStatus = Active | Inactive

  /** One row of the `users` table. */
  datatype User = User(
    id: Uuid,
    tenantId: Uuid,
    email: string,
    passwordHash: string,
    role: UserRole,
    status: UserStatus,
    createdAt: Timestamp,
    updatedAt: Timestamp)

  /** The payload of a session token. */
  datatype Claims = Claims(
    userId: Uuid,
    tenantId: Uuid,
    email: string,
    role: UserRole,
    exp: Timestamp)

  /** The identity claims a token issued for `u` carries. */
  function ClaimsFor(u: User, exp: Timestamp): Claims
  {
    Claims(u.id, u.tenantId, u.email, u.role, exp)
  }

  type StatusCode = int

  const BAD_REQUEST: StatusCode := 400
  const UNAUTHORIZED: StatusCode := 401
  const FORBIDDEN: StatusCode := 403
  const NOT_FOUND: StatusCode := 404
  const CONFLICT: StatusCode := 409
  const INTERNAL_SERVER_ERROR: StatusCode := 500
  const SERVICE_UNAVAILABLE: StatusCode := 503

  /** An HTTP response whose body is a flat JSON object of string values. */
  datatype Response = Response(status: StatusCode, body: map<string, string>)
}
