/**
 * The claims-only access checks and request guards of src/utils/auth.rs.
 * Guards never consult the store: every decision is made from the token's
 * claims and the `{tenant_id}` path value.
 */
module AccessGuards {
  import opened Domain
  import AuthMiddleware
  import TokenCodec

  // ---------------------------------------------------------------- plain checks

  function CheckTenantAccess(claims: Claims, tenantId: Uuid): (r: Result<(), StatusCode>)
    ensures r.Success? <==> claims.tenantId == tenantId
    ensures r.Failure? ==> r.error == FORBIDDEN
  {
    if claims.tenantId != tenantId then Failure(FORBIDDEN) else Success(())
  }

  /** Exact equality: an admin does not satisfy a `Regular` requirement. */
  function CheckRole(claims: Claims, requiredRole: UserRole): (r: Result<(), StatusCode>)
    ensures r.Success? <==> claims.role == requiredRole
    ensures r.Failure? ==> r.error == FORBIDDEN
  {
    if claims.role != requiredRole then Failure(FORBIDDEN) else Success(())
  }

  /** The tenant check runs first; the role check only after it passed. */
  function CheckTenantAndRole(claims: Claims, tenantId: Uuid, requiredRole: UserRole): (r: Result<(), StatusCode>)
    ensures r.Success? <==> claims.tenantId == tenantId && claims.role == requiredRole
    ensures r.Failure? ==> r.error == FORBIDDEN
    ensures claims.tenantId != tenantId ==> r == CheckTenantAccess(claims, tenantId)
  {
    var _ :- CheckTenantAccess(claims, tenantId);
    var _ :- CheckRole(claims, requiredRole);
    Success(())
  }

  // ---------------------------------------------------------------- rejections

  const AdminRoleRequired: string := "ADMIN_ROLE_REQUIRED"
  const AccessDeniedForThisTenant: string := "ACCESS_DENIED_FOR_THIS_TENANT"

  /** 403 with `{"error": "FORBIDDEN", "message": message}`. */
  function ForbiddenResponse(message: string): Response
  {
    Response(FORBIDDEN, map["error" := "FORBIDDEN", "message" := message])
  }

  /** 400 with `{"error": "INVALID_TENANT_ID"}`, when `Path::<Uuid>` rejects. */
  const InvalidTenantIdResponse: Response := Response(BAD_REQUEST, map["error" := "INVALID_TENANT_ID"])

  /** Claims together with the tenant they were checked against. */
  datatype TenantPrincipal = TenantPrincipal(claims: Claims, tenantId: Uuid)

  // ---------------------------------------------------------------- guards

  /** `AdminRole`: the `Claims` extractor, then the admin role. */
  function AdminRole(req: AuthMiddleware.Request, now: Timestamp): (r: Result<Claims, Response>)
    ensures var c := AuthMiddleware.ExtractClaims(req, now);
      && (c.Failure? ==> r == Failure(AuthMiddleware.IntoResponse(c.error)))
      && (c.Success? && c.value.role != Admin ==> r == Failure(ForbiddenResponse(AdminRoleRequired)))
      && (r.Success? <==> c.Success? && c.value.role == Admin)
      && (r.Success? ==> r.value == c.value)
  {
    match AuthMiddleware.ExtractClaims(req, now)
    case Failure(e) => Failure(AuthMiddleware.IntoResponse(e))
    case Success(claims) =>
      if claims.role != Admin then Failure(ForbiddenResponse(AdminRoleRequired))
      else Success(claims)
  }

  /** `AdminRoleWithTenant`: claims, admin role, path value, tenant match, in that order. */
  function AdminRoleWithTenant(req: AuthMiddleware.Request, now: Timestamp): (r: Result<TenantPrincipal, Response>)
    ensures var c := AuthMiddleware.ExtractClaims(req, now);
      && (c.Failure? ==> r == Failure(AuthMiddleware.IntoResponse(c.error)))
      && (c.Success? && c.value.role != Admin ==> r == Failure(ForbiddenResponse(AdminRoleRequired)))
      && (c.Success? && c.value.role == Admin && req.pathTenantId.None? ==> r == Failure(InvalidTenantIdResponse))
      && (c.Success? && c.value.role == Admin && req.pathTenantId.Some? && req.pathTenantId.value != c.value.tenantId
          ==> r == Failure(ForbiddenResponse(AccessDeniedForThisTenant)))
      && (r.Success? <==> c.Success? && c.value.role == Admin && req.pathTenantId == Some(c.value.tenantId))
      && (r.Success? ==> r.value.claims == c.value && r.value.tenantId == c.value.tenantId
                         && req.pathTenantId == Some(r.value.tenantId))
  {
    match AuthMiddleware.ExtractClaims(req, now)
    case Failure(e) => Failure(AuthMiddleware.IntoResponse(e))
    case Success(claims) =>
      if claims.role != Admin then Failure(ForbiddenResponse(AdminRoleRequired))
      else
        match req.pathTenantId
        case None => Failure(InvalidTenantIdResponse)
        case Some(tenantId) =>
          if claims.tenantId != tenantId then Failure(ForbiddenResponse(AccessDeniedForThisTenant))
          else Success(TenantPrincipal(claims, tenantId))
  }

  /** `TenantAccess`: claims, path value, tenant match; no role check. */
  function TenantAccess(req: AuthMiddleware.Request, now: Timestamp): (r: Result<TenantPrincipal, Response>)
    ensures var c := AuthMiddleware.ExtractClaims(req, now);
      && (c.Failure? ==> r == Failure(AuthMiddleware.IntoResponse(c.error)))
      && (c.Success? && req.pathTenantId.None? ==> r == Failure(InvalidTenantIdResponse))
      && (c.Success? && req.pathTenantId.Some? && req.pathTenantId.value != c.value.tenantId
          ==> r == Failure(ForbiddenResponse(AccessDeniedForThisTenant)))
      && (r.Success? <==> c.Success? && req.pathTenantId == Some(c.value.tenantId))
      && (r.Success? ==> r.value.claims == c.value && r.value.tenantId == c.value.tenantId
                         && req.pathTenantId == Some(r.value.tenantId))
  {
    match AuthMiddleware.ExtractClaims(req, now)
    case Failure(e) => Failure(AuthMiddleware.IntoResponse(e))
    case Success(claims) =>
      match req.pathTenantId
      case None => Failure(InvalidTenantIdResponse)
      case Some(tenantId) =>
        if claims.tenantId != tenantId then Failure(ForbiddenResponse(AccessDeniedForThisTenant))
        else Success(TenantPrincipal(claims, tenantId))
  }

  // ---------------------------------------------------------------- relations between guards

  /** The role check comes before the tenant check: a non-admin never learns about tenants. */
  lemma NonAdminWrongTenantGetsAdminRoleRequired(req: AuthMiddleware.Request, now: Timestamp)
    requires AuthMiddleware.ExtractClaims(req, now).Success?
    requires AuthMiddleware.ExtractClaims(req, now).value.role == Regular
    requires req.pathTenantId.Some? && req.pathTenantId.value != AuthMiddleware.ExtractClaims(req, now).value.tenantId
    ensures AdminRoleWithTenant(req, now) == Failure(ForbiddenResponse(AdminRoleRequired))
    ensures TenantAccess(req, now) == Failure(ForbiddenResponse(AccessDeniedForThisTenant))
  {
  }

  /** The admin tenant guard is exactly the tenant guard and the admin guard together. */
  lemma AdminRoleWithTenantIsBoth(req: AuthMiddleware.Request, now: Timestamp)
    ensures AdminRoleWithTenant(req, now).Success? <==> TenantAccess(req, now).Success? && AdminRole(req, now).Success?
    ensures AdminRoleWithTenant(req, now).Success? ==> AdminRoleWithTenant(req, now) == TenantAccess(req, now)
  {
  }

  /** On the happy path the guards agree with `check_tenant_and_role`. */
  lemma GuardsAgreeWithChecks(req: AuthMiddleware.Request, now: Timestamp)
    requires AuthMiddleware.ExtractClaims(req, now).Success? && req.pathTenantId.Some?
    ensures var claims := AuthMiddleware.ExtractClaims(req, now).value;
      && (AdminRoleWithTenant(req, now).Success? <==> CheckTenantAndRole(claims, req.pathTenantId.value, Admin).Success?)
      && (TenantAccess(req, now).Success? <==> CheckTenantAccess(claims, req.pathTenantId.value).Success?)
      && (AdminRole(req, now).Success? <==> CheckRole(claims, Admin).Success?)
  {
  }

  /** `TenantAccess` ignores the role: two tokens differing only in role fare alike. */
  lemma TenantAccessIgnoresRole(claims: Claims, state: AuthMiddleware.AuthState, pathTenantId: Option<Uuid>, now: Timestamp)
    ensures var admin := AuthMiddleware.Request(Some(state), Some(AuthMiddleware.BearerHeader(TokenCodec.Encode(claims.(role := Admin), state.secret))), pathTenantId);
      var regular := AuthMiddleware.Request(Some(state), Some(AuthMiddleware.BearerHeader(TokenCodec.Encode(claims.(role := Regular), state.secret))), pathTenantId);
      TenantAccess(admin, now).Success? <==> TenantAccess(regular, now).Success?
  {
    AuthMiddleware.ExpiredTokenAccepted(claims.(role := Admin), state, pathTenantId, now);
    AuthMiddleware.ExpiredTokenAccepted(claims.(role := Regular), state, pathTenantId, now);
  }
}
