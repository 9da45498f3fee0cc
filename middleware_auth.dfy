/**
 * The request extractors of src/middleware/auth.rs: the static `BearerToken`
 * gate and the `Claims` extractor, with the `AuthError` rejection of the
 * latter. A request is reduced to what the extractors read: the `AuthState`
 * extension, the raw `Authorization` header and the `{tenant_id}` path value.
 */
module AuthMiddleware {
  import opened Domain
  import opened Text
  import TokenCodec

  /** The rejection of the `Claims` extractor. */
  datatype AuthError = ExpiredToken | InvalidToken | MissingToken

  function Code(e: AuthError): string
  {
    match e
    case ExpiredToken => "TOKEN_EXPIRED"
    case InvalidToken => "INVALID_TOKEN"
    case MissingToken => "MISSING_TOKEN"
  }

  /** `<AuthError as IntoResponse>::into_response`: 401 with only an `error` code. */
  function IntoResponse(e: AuthError): (r: Response)
    ensures r.status == UNAUTHORIZED
    ensures r.body.Keys == {"error"} && r.body["error"] == Code(e)
  {
    Response(UNAUTHORIZED, map["error" := Code(e)])
  }

  lemma CodesDistinct(a: AuthError, b: AuthError)
    ensures Code(a) == Code(b) <==> a == b
  {
  }

  /** The process-wide secrets installed as a request extension. */
  datatype AuthState = AuthState(secret: string, bearerToken: string)

  /**
   * What an extractor can see of a request: the extension (absent when the
   * router did not install it), the raw `Authorization` header, and the
   * `{tenant_id}` path value (absent when `Path::<Uuid>` would reject).
   */
  datatype Request = Request(
    authState: Option<AuthState>,
    authorization: Option<string>,
    pathTenantId: Option<Uuid>)

  /** `HeaderValue::to_str` succeeds only on tabs and visible ASCII. */
  predicate IsHeaderText(raw: string)
  {
    forall i :: 0 <= i < |raw| ==> raw[i] == '\t' || ' ' <= raw[i] <= '~'
  }

  /** `headers.get(AUTHORIZATION).and_then(|h| h.to_str().ok())`. */
  function AuthorizationText(req: Request): (r: Option<string>)
    ensures r.Some? <==> req.authorization.Some? && IsHeaderText(req.authorization.value)
    ensures r.Some? ==> r.value == req.authorization.value
  {
    match req.authorization
    case None => None
    case Some(raw) => if IsHeaderText(raw) then Some(raw) else None
  }

  const BearerPrefix: string := "Bearer "

  /**
   * The `BearerToken` extractor: a shared-secret gate. A missing `AuthState`
   * is a 500 before the header is looked at; every other failure is a 401.
   */
  function BearerToken(req: Request): (r: Result<(), StatusCode>)
    ensures req.authState.None? ==> r == Failure(INTERNAL_SERVER_ERROR)
    ensures req.authState.Some? ==>
      (r.Success? <==> AuthorizationText(req) == Some(BearerPrefix + req.authState.value.bearerToken))
    ensures req.authState.Some? && r.Failure? ==> r.error == UNAUTHORIZED
  {
    match req.authState
    case None => Failure(INTERNAL_SERVER_ERROR)
    case Some(state) =>
      match AuthorizationText(req)
      case None => Failure(UNAUTHORIZED)
      case Some(header) =>
        match StripPrefix(header, BearerPrefix)
        case None => Failure(UNAUTHORIZED)
        case Some(token) => if token != state.bearerToken then Failure(UNAUTHORIZED) else Success(())
  }

  /** The extractor's `Validation`: the default with `validate_exp = false`. */
  const ExtractorValidation: TokenCodec.Validation := TokenCodec.DefaultValidation.(validateExp := false)

  /** The four substring tests applied to the Debug text of a decode error. */
  predicate MentionsExpiry(errorText: string)
  {
    Contains(errorText, "ExpiredSignature") || Contains(errorText, "expired")
    || Contains(errorText, "Expired") || Contains(Lower(errorText), "expired")
  }

  /** The four tests reduce to the lower-case one. */
  lemma ClassifyIsLowercaseTest(errorText: string)
    ensures MentionsExpiry(errorText) <==> Contains(Lower(errorText), "expired")
  {
    assert Lower("Expired") == "expired";
    assert Lower("expired") == "expired";
    if Contains(errorText, "ExpiredSignature") {
      ContainsPrefixOf(errorText, "ExpiredSignature", "Expired");
    }
    if Contains(errorText, "Expired") {
      LowerPreservesContains(errorText, "Expired");
    }
    if Contains(errorText, "expired") {
      LowerPreservesContains(errorText, "expired");
    }
  }

  /** How a decode failure becomes a rejection: `ExpiredToken` exactly when its text mentions expiry. */
  function ClassifyDecodeFailure(errorText: string): (r: AuthError)
    ensures r == ExpiredToken <==> Contains(Lower(errorText), "expired")
    ensures r != MissingToken
  {
    ClassifyIsLowercaseTest(errorText);
    if MentionsExpiry(errorText) then ExpiredToken else InvalidToken
  }

  /**
   * The `Claims` extractor, in its order of checks: extension, header,
   * `Bearer ` prefix, then signature and structure. `now` is the clock that
   * `decode` would read; with expiry validation off it has no effect.
   */
  function ExtractClaims(req: Request, now: Timestamp): (r: Result<Claims, AuthError>)
    ensures req.authState.None? ==> r == Failure(InvalidToken)
    ensures req.authState.Some? && AuthorizationText(req).None? ==> r == Failure(MissingToken)
    ensures req.authState.Some? && AuthorizationText(req).Some? && !(BearerPrefix <= AuthorizationText(req).value)
      ==> r == Failure(InvalidToken)
    ensures r.Success? ==>
      && req.authState.Some? && AuthorizationText(req).Some?
      && BearerPrefix <= AuthorizationText(req).value
      && TokenCodec.Decode(AuthorizationText(req).value[|BearerPrefix|..], req.authState.value.secret, ExtractorValidation, now)
         == Success(r.value)
    ensures req.authState.Some? && AuthorizationText(req).Some? && BearerPrefix <= AuthorizationText(req).value ==>
      var d := TokenCodec.Decode(AuthorizationText(req).value[|BearerPrefix|..], req.authState.value.secret, ExtractorValidation, now);
      r == if d.Success? then Success(d.value) else Failure(ClassifyDecodeFailure(TokenCodec.DebugText(d.error)))
  {
    match req.authState
    case None => Failure(InvalidToken)
    case Some(state) =>
      match AuthorizationText(req)
      case None => Failure(MissingToken)
      case Some(header) =>
        match StripPrefix(header, BearerPrefix)
        case None => Failure(InvalidToken)
        case Some(token) =>
          match TokenCodec.Decode(token, state.secret, ExtractorValidation, now)
          case Success(claims) => Success(claims)
          case Failure(e) => Failure(ClassifyDecodeFailure(TokenCodec.DebugText(e)))
  }

  /**
   * With expiry validation switched off the extractor never reports
   * `ExpiredToken`: its `TOKEN_EXPIRED` branch is dead code.
   */
  lemma {:induction false} ExpiredTokenUnreachable(req: Request, now: Timestamp)
    ensures ExtractClaims(req, now) != Failure(ExpiredToken)
  {
    if req.authState.Some? && AuthorizationText(req).Some? && BearerPrefix <= AuthorizationText(req).value {
      var token := AuthorizationText(req).value[|BearerPrefix|..];
      var d := TokenCodec.Decode(token, req.authState.value.secret, ExtractorValidation, now);
      TokenCodec.DecodeWithoutExpiryIgnoresClock(token, req.authState.value.secret, ExtractorValidation.leeway, now, now);
      if d.Failure? {
        NonExpiryFailuresAreInvalidToken(d.error);
      }
    }
  }

  /** The failures that decoding without expiry validation can report are all classified `InvalidToken`. */
  lemma NonExpiryFailuresAreInvalidToken(e: TokenCodec.ErrorKind)
    requires e == TokenCodec.InvalidToken || e == TokenCodec.InvalidSignature || e == TokenCodec.MissingRequiredClaim("exp")
    ensures ClassifyDecodeFailure(TokenCodec.DebugText(e)) == InvalidToken
  {
    if e.MissingRequiredClaim? {
      MissingExpIsInvalidToken();
    } else {
      var text := TokenCodec.DebugText(e);
      assert 'x' !in Lower(text) by {
        assert 'x' !in text && 'X' !in text;
        forall i | 0 <= i < |text| ensures Lower(text)[i] != 'x' {
          assert Lower(text)[i] == LowerChar(text[i]);
        }
      }
      NotContainsMissingChar(Lower(text), "expired", 1);
    }
  }

  /**
   * A token whose `exp` is negative fails as a missing `exp` claim, whose
   * Debug text mentions `exp` but not expiry: it is rejected as `INVALID_TOKEN`.
   */
  lemma MissingExpIsInvalidToken()
    ensures ClassifyDecodeFailure(TokenCodec.DebugText(TokenCodec.MissingRequiredClaim("exp"))) == InvalidToken
  {
    var text := TokenCodec.DebugText(TokenCodec.MissingRequiredClaim("exp"));
    var low := Lower(text);
    assert |text| == 34;
    forall k | 0 <= k < |low| && low[k] == "expired"[1]
      ensures k + 6 > |low|
    {
      assert low[k] == LowerChar(text[k]);
      assert text[k] == 'x' || text[k] == 'X';
    }
    NotContainsLateChar(low, "expired", 1);
  }

  /** The header `Bearer <token>` for a token. */
  function BearerHeader(token: string): string
  {
    BearerPrefix + token
  }

  /** The header carrying any encoded token is readable: tokens are visible ASCII. */
  lemma TokenHeaderReadable(claims: Claims, secret: string)
    ensures IsHeaderText(BearerHeader(TokenCodec.Encode(claims, secret)))
  {
    var header := BearerHeader(TokenCodec.Encode(claims, secret));
    TokenCodec.EncodePrintable(claims, secret);
    PrintableAt(BearerPrefix);
    PrintableAppend(BearerPrefix, TokenCodec.Encode(claims, secret));
    PrintableAt(header);
  }

  /**
   * A correctly signed token is accepted however long ago its `exp` passed:
   * it yields its claims unless `exp` is negative, which is `INVALID_TOKEN`.
   */
  lemma {:induction false} ExpiredTokenAccepted(claims: Claims, state: AuthState, pathTenantId: Option<Uuid>, now: Timestamp)
    ensures ExtractClaims(Request(Some(state), Some(BearerHeader(TokenCodec.Encode(claims, state.secret))), pathTenantId), now)
      == if claims.exp < 0 then Failure(InvalidToken) else Success(claims)
  {
    var token := TokenCodec.Encode(claims, state.secret);
    TokenHeaderReadable(claims, state.secret);
    assert BearerHeader(token)[|BearerPrefix|..] == token;
    TokenCodec.DecodeEncoded(claims, state.secret, ExtractorValidation, now);
    MissingExpIsInvalidToken();
  }

  /** Prefix stripping is exact and case-sensitive. */
  lemma PrefixIsExact(state: AuthState, token: string, now: Timestamp)
    requires IsHeaderText(token)
    ensures ExtractClaims(Request(Some(state), Some("bearer " + token), None), now) == Failure(InvalidToken)
    ensures ExtractClaims(Request(Some(state), Some("Bearerx" + token), None), now) == Failure(InvalidToken)
    ensures BearerToken(Request(Some(state), Some("bearer " + state.bearerToken), None)).Failure?
  {
    assert IsHeaderText("bearer " + token) && IsHeaderText("Bearerx" + token) by {
      assert IsHeaderText("bearer ") && IsHeaderText("Bearerx");
    }
    ExcludedPrefix("bearer " + token);
    ExcludedPrefix("Bearerx" + token);
    ExcludedPrefix("bearer " + state.bearerToken);
  }

  lemma ExcludedPrefix(header: string)
    requires |header| >= 7 && (header[0] != 'B' || header[6] != ' ')
    ensures !(BearerPrefix <= header)
  {
  }

  /**
   * With the wiring of src/routes/mod.rs, where `bearer_token` is the JWT
   * secret, whoever passes the `BearerToken` gate holds the signing secret
   * and can mint a token the `Claims` extractor accepts for any identity
   * (any claims with a non-negative `exp`).
   */
  lemma {:induction false} GateSecretForgesClaims(req: Request, forged: Claims, now: Timestamp)
    requires req.authState.Some? && req.authState.value.bearerToken == req.authState.value.secret
    requires BearerToken(req).Success?
    ensures var known := AuthorizationText(req).value[|BearerPrefix|..];
      ExtractClaims(req.(authorization := Some(BearerHeader(TokenCodec.Encode(forged, known)))), now)
        == if forged.exp < 0 then Failure(InvalidToken) else Success(forged)
  {
    var state := req.authState.value;
    var known := AuthorizationText(req).value[|BearerPrefix|..];
    assert known == state.secret;
    ExpiredTokenAccepted(forged, state, req.pathTenantId, now);
    assert req.(authorization := Some(BearerHeader(TokenCodec.Encode(forged, known))))
      == Request(Some(state), Some(BearerHeader(TokenCodec.Encode(forged, state.secret))), req.pathTenantId);
  }
}
