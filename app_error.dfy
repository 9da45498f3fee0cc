/**
 * The application error taxonomy of src/utils/error.rs: a closed enum and
 * one total rendering to an HTTP status, a machine-readable code and a
 * human-readable message, sent as the JSON body `{error, message}`.
 */
module AppErrors {
  import opened Domain

  /** The token failures wrapped by `AppError::Auth`. */
  datatype AuthError = ExpiredToken | InvalidToken | MissingToken

  datatype AppError =
    | Auth(auth: AuthError)
    | Database(dbErr: string)
    | UserNotFound
    | UserAlreadyExists
    | InvalidCredentials
    | UserNotValidated
    | Forbidden(reason: string)
    | Internal
    | TenantNotFound
    | ServiceUnavailable
    | Validation(details: string)

  /** What `into_response` sends: status, `error` code and `message`. */
  datatype Rendering = Rendering(status: StatusCode, code: string, message: string)

  /**
   * The rendering of each variant. Every error gets an error status and a
   * non-empty code; the server-side statuses (5xx) belong exactly to the
   * faults that are not the client's.
   */
  function Render(e: AppError): (r: Rendering)
    ensures 400 <= r.status < 600 && r.code != []
    ensures r.status >= 500 <==> e.Database? || e.Internal? || e.ServiceUnavailable?
  {
    match e
    case Auth(ExpiredToken) => Rendering(UNAUTHORIZED, "TOKEN_EXPIRED", "Token has expired")
    case Auth(InvalidToken) => Rendering(UNAUTHORIZED, "INVALID_TOKEN", "Invalid authentication token")
    case Auth(MissingToken) => Rendering(UNAUTHORIZED, "MISSING_TOKEN", "Authentication token required")
    case UserNotFound => Rendering(NOT_FOUND, "USER_NOT_FOUND", "User not found")
    case UserAlreadyExists => Rendering(CONFLICT, "USER_ALREADY_EXISTS", "User already exists for this tenant")
    case InvalidCredentials => Rendering(UNAUTHORIZED, "INVALID_CREDENTIALS", "Invalid email or password")
    case UserNotValidated => Rendering(FORBIDDEN, "USER_NOT_VALIDATED", "User account is not validated")
    case Forbidden(msg) => Rendering(FORBIDDEN, "FORBIDDEN", "Forbidden: " + msg)
    case Database(_) => Rendering(INTERNAL_SERVER_ERROR, "DATABASE_ERROR", "Database operation failed")
    case Internal => Rendering(INTERNAL_SERVER_ERROR, "INTERNAL_ERROR", "Internal server error")
    case TenantNotFound => Rendering(NOT_FOUND, "TENANT_NOT_FOUND", "Tenant not found")
    case ServiceUnavailable => Rendering(SERVICE_UNAVAILABLE, "SERVICE_UNAVAILABLE", "Service is currently unavailable")
    case Validation(msg) => Rendering(BAD_REQUEST, "VALIDATION_ERROR", msg)
  }

  /** `<AppError as IntoResponse>::into_response`. */
  function IntoResponse(e: AppError): (r: Response)
    ensures r.body.Keys == {"error", "message"}
    ensures r.status == Render(e).status
    ensures r.body["error"] == Render(e).code && r.body["message"] == Render(e).message
  {
    var rendered := Render(e);
    Response(rendered.status, map["error" := rendered.code, "message" := rendered.message])
  }

  /** The position of a variant in the declaration, Auth variants counted separately. */
  function Variant(e: AppError): nat
  {
    match e
    case Auth(ExpiredToken) => 0
    case Auth(InvalidToken) => 1
    case Auth(MissingToken) => 2
    case Database(_) => 3
    case UserNotFound => 4
    case UserAlreadyExists => 5
    case InvalidCredentials => 6
    case UserNotValidated => 7
    case Forbidden(_) => 8
    case Internal => 9
    case TenantNotFound => 10
    case ServiceUnavailable => 11
    case Validation(_) => 12
  }

  /** Each status class holds exactly the variants the taxonomy assigns to it. */
  lemma StatusClasses(e: AppError)
    ensures Render(e).status == UNAUTHORIZED <==> e.Auth? || e.InvalidCredentials?
    ensures Render(e).status == FORBIDDEN <==> e.UserNotValidated? || e.Forbidden?
    ensures Render(e).status == NOT_FOUND <==> e.UserNotFound? || e.TenantNotFound?
    ensures Render(e).status == CONFLICT <==> e.UserAlreadyExists?
    ensures Render(e).status == INTERNAL_SERVER_ERROR <==> e.Database? || e.Internal?
    ensures Render(e).status == SERVICE_UNAVAILABLE <==> e.ServiceUnavailable?
    ensures Render(e).status == BAD_REQUEST <==> e.Validation?
  {
  }

  /** The thirteen codes are pairwise distinct: the code identifies the variant. */
  lemma CodeIdentifiesVariant(a: AppError, b: AppError)
    ensures Render(a).code == Render(b).code <==> Variant(a) == Variant(b)
  {
  }

  /** Messages: validation details and forbidden reasons are carried, database details are not. */
  lemma Messages(msg: string, detail1: string, detail2: string)
    ensures Render(Validation(msg)).message == msg
    ensures Render(Forbidden(msg)).message == "Forbidden: " + msg
    ensures Render(Database(detail1)).message == Render(Database(detail2)).message
  {
  }
}
