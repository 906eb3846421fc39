/**
 * AuthController: login, the test-token shortcut, token verification and the
 * current-user lookup. The authentication manager is the `authenticate`
 * parameter: it returns the authenticated principal's name, or `None` for an
 * AuthenticationException.
 */
module AuthApi {
  import opened Basics
  import opened Jwt
  import opened AuthFilter
  import opened Binding
  import opened Policy
  import opened AuthDto
  import opened ClientDto

  const StatusOk: int := 200
  const StatusBadRequest: int := 400
  const StatusUnauthorized: int := 401
  const StatusServerError: int := 500

  const AdminRoles: string := "USER,ADMIN"
  const UserRoles: string := "USER"
  const TestUser: string := "testuser"

  /** `determineUserRoles`: "admin" and "testuser", in any letter case, are administrators. */
  function DetermineUserRoles(username: string): (roles: string)
    ensures roles == AdminRoles <==> ToLower(username) == "admin" || ToLower(username) == TestUser
    ensures roles == UserRoles <==> !(ToLower(username) == "admin" || ToLower(username) == TestUser)
  {
    match ToLower(username)
    case "admin" => AdminRoles
    case "user" => UserRoles
    case "testuser" => AdminRoles
    case _ => UserRoles
  }

  /** The role lookup ignores ASCII letter case. */
  lemma RolesIgnoreCase(u: string)
    ensures DetermineUserRoles(u) == DetermineUserRoles(ToLower(u))
  {
    assert ToLower(ToLower(u)) == ToLower(u);
  }

  lemma AdminSpellings()
    ensures DetermineUserRoles("ADMIN") == AdminRoles
    ensures DetermineUserRoles("Admin") == AdminRoles
    ensures DetermineUserRoles("administrator") == UserRoles
  {
    assert ToLower("ADMIN") == "admin";
    assert ToLower("Admin") == "admin";
    assert ToLower("administrator") == "administrator";
  }

  /** `@Valid` on a `LoginRequest`: both fields @NotBlank. */
  predicate ValidLogin(req: LoginRequest)
  {
    NotBlank(req.username) && NotBlank(req.password)
  }

  /**
   * `login`: a rejected body is a framework 400; failed credentials give 401
   * "Credenciales inválidas"; success signs a token for the authenticated
   * name (without a roles claim) and reports the looked-up roles and the
   * configured lifetime.
   */
  function Login(codec: Codec, cfg: Config, req: LoginRequest, authenticate: (string, string) -> Option<string>, now: int): (r: Response<LoginResponse>)
    ensures r.status == StatusBadRequest <==> !ValidLogin(req)
    ensures ValidLogin(req) ==>
      (r.status == StatusUnauthorized <==> authenticate(req.username.value, req.password.value).None?)
    ensures ValidLogin(req) && authenticate(req.username.value, req.password.value).Some? ==> r.status == StatusOk
    ensures r.status == StatusUnauthorized ==> r.body == Some(Error("Credenciales inválidas"))
    ensures r.status == StatusOk ==>
      var name := authenticate(req.username.value, req.password.value).value;
      && r.body.Some? && r.body.value.success && r.body.value.message == "Login exitoso"
      && r.body.value.data == Some(NewLoginResponse(
           Some(codec.sign(AuthenticationClaims(name, now, cfg))),
           req.username,
           Some(DetermineUserRoles(req.username.value)),
           cfg.expirationMs))
  {
    if !ValidLogin(req) then Response(StatusBadRequest, None)
    else
      var username := req.username.value;
      match authenticate(username, req.password.value)
      case None => Response(StatusUnauthorized, Some(Error("Credenciales inválidas")))
      case Some(name) =>
        var jwt := GenerateForAuthentication(codec, name, now, cfg);
        var roles := DetermineUserRoles(username);
        var response := NewLoginResponse(Some(jwt), req.username, Some(roles), cfg.expirationMs);
        Response(StatusOk, Some(Success(Some(response), "Login exitoso")))
  }

  /** The login handler with the roles it reports also signed into the token. */
  function LoginWithRoles(codec: Codec, cfg: Config, req: LoginRequest, authenticate: (string, string) -> Option<string>, now: int): (r: Response<LoginResponse>)
    ensures r.status == StatusBadRequest <==> !ValidLogin(req)
    ensures ValidLogin(req) ==>
      (r.status == StatusUnauthorized <==> authenticate(req.username.value, req.password.value).None?)
    ensures ValidLogin(req) && authenticate(req.username.value, req.password.value).Some? ==> r.status == StatusOk
    ensures r.status == StatusOk ==>
      var name := authenticate(req.username.value, req.password.value).value;
      var roles := DetermineUserRoles(req.username.value);
      && r.body.Some? && r.body.value.data.Some?
      && r.body.value.data.value.token == Some(codec.sign(RolesClaims(name, roles, now, cfg)))
      && r.body.value.data.value.roles == Some(roles)
  {
    if !ValidLogin(req) then Response(StatusBadRequest, None)
    else
      var username := req.username.value;
      match authenticate(username, req.password.value)
      case None => Response(StatusUnauthorized, Some(Error("Credenciales inválidas")))
      case Some(name) =>
        var roles := DetermineUserRoles(username);
        var jwt := GenerateWithRoles(codec, name, roles, now, cfg);
        var response := NewLoginResponse(Some(jwt), req.username, Some(roles), cfg.expirationMs);
        Response(StatusOk, Some(Success(Some(response), "Login exitoso")))
  }

  /** `getTestToken`: a token for "testuser" with roles "USER,ADMIN", no credentials needed. */
  function GetTestToken(codec: Codec, cfg: Config, now: int): (r: Response<LoginResponse>)
    ensures r.status == StatusOk && r.body.Some? && r.body.value.success
    ensures r.body.value.message == "Token de prueba generado"
    ensures r.body.value.data == Some(NewLoginResponse(
      Some(codec.sign(RolesClaims(TestUser, AdminRoles, now, cfg))), Some(TestUser), Some(AdminRoles), cfg.expirationMs))
  {
    var jwt := GenerateWithRoles(codec, TestUser, AdminRoles, now, cfg);
    var response := NewLoginResponse(Some(jwt), Some(TestUser), Some(AdminRoles), cfg.expirationMs);
    Response(StatusOk, Some(Success(Some(response), "Token de prueba generado")))
  }

  /** `@Valid` on a `TokenVerificationRequest`: the token is @NotBlank. */
  predicate ValidVerification(req: TokenVerificationRequest)
  {
    NotBlank(req.token)
  }

  /**
   * `verifyToken`: a well-formed request always gets 200; the claims and
   * remaining time are filled in only for a valid token.
   */
  function VerifyToken(codec: Codec, req: TokenVerificationRequest, now: int): (r: Response<TokenVerificationResponse>)
    ensures r.status == StatusOk <==> ValidVerification(req)
    ensures !ValidVerification(req) ==> r.status == StatusBadRequest && r.body.None?
    ensures ValidVerification(req) ==>
      var parsed := codec.parse(req.token.value, now);
      && r.body.Some? && r.body.value.success && r.body.value.data.Some?
      && r.body.value.message == (if parsed.Ok? then "Token válido" else "Token inválido")
      && r.body.value.data.value.valid == parsed.Ok?
      && r.body.value.data.value.status == Some(if parsed.Ok? then "VALID" else "INVALID")
      && (parsed.Ok? ==>
            && r.body.value.data.value.username == parsed.value.subject
            && r.body.value.data.value.roles == parsed.value.roles
            && r.body.value.data.value.remainingTime
               == Some(if parsed.value.expiration.Some? then Max(0, parsed.value.expiration.value - now) else 0))
      && (!parsed.Ok? ==>
            && r.body.value.data.value.username.None?
            && r.body.value.data.value.roles.None?
            && r.body.value.data.value.remainingTime.None?)
  {
    if !ValidVerification(req) then Response(StatusBadRequest, None)
    else
      var token := req.token.value;
      if !ValidateJwtToken(codec, token, now) then VerificationReply(false, None, None, None)
      else
        match GetUsername(codec, token, now)
        case Threw(_) => Response(StatusServerError, None)
        case Returned(username) =>
          match GetRoles(codec, token, now)
          case Threw(_) => Response(StatusServerError, None)
          case Returned(roles) =>
            match GetTokenRemainingTime(codec, token, now)
            case Threw(_) => Response(StatusServerError, None)
            case Returned(remaining) => VerificationReply(true, username, roles, Some(remaining))
  }

  /**
   * Verification and the current-user lookup agree on a bearer token: it
   * verifies as valid exactly when the lookup succeeds, and both report the
   * same user name and roles.
   */
  lemma VerifyAgreesWithCurrentUser(codec: Codec, t: string, now: int)
    requires !Contains(t, BearerPrefix) && !IsBlank(t)
    ensures var v := VerifyToken(codec, TokenVerificationRequest(Some(t)), now).body.value.data.value;
      var u := GetCurrentUser(codec, Some(BearerPrefix + t), now);
      && (v.valid <==> u.status == StatusOk)
      && (v.valid ==> u.body.value.data == Some(UserInfo(v.username, v.roles, true)))
  {
    StripBearer(t);
  }

  /**
   * A token just issued by the test-token endpoint verifies, while unexpired,
   * as "testuser" with "USER,ADMIN" and the remaining lifetime cut to the
   * second.
   */
  lemma {:induction false} IssuedTokenVerifies(codec: Codec, cfg: Config, now: int)
    requires ReadsBack(codec, RolesClaims(TestUser, AdminRoles, now, cfg), now)
    ensures var token := GetTestToken(codec, cfg, now).body.value.data.value.token.value;
      var r := VerifyToken(codec, TokenVerificationRequest(Some(token)), now);
      && (IsBlank(token) ==> r.status == StatusBadRequest)
      && (!IsBlank(token) ==>
            var v := r.body.value.data.value;
            && v.valid == FreshAtIssue(now, cfg)
            && (v.valid ==>
                  && v.username == Some(TestUser)
                  && v.roles == Some(AdminRoles)
                  && v.remainingTime == Some(Max(0, WholeSecond(now + cfg.expirationMs) - now))))
  {
    var c := RolesClaims(TestUser, AdminRoles, now, cfg);
    var token := codec.sign(c);
    assert GetTestToken(codec, cfg, now).body.value.data.value.token.value == token;
    ReadBackAtIssue(codec, c, now, cfg);
    if !IsBlank(token) {
      if FreshAtIssue(now, cfg) {
        VerifyReadable(codec, token, Stored(c), now);
      } else {
        assert !codec.parse(token, now).Ok?;
      }
    }
  }

  /** Verifying a readable token reports its subject, roles and remaining time. */
  lemma {:induction false} VerifyReadable(codec: Codec, token: string, c: Claims, now: int)
    requires codec.parse(token, now) == Ok(c) && !IsBlank(token)
    ensures var v := VerifyToken(codec, TokenVerificationRequest(Some(token)), now).body.value.data.value;
      && v.valid && v.username == c.subject && v.roles == c.roles
      && v.remainingTime == Some(if c.expiration.Some? then Max(0, c.expiration.value - now) else 0)
  {
    var req := TokenVerificationRequest(Some(token));
    assert ValidVerification(req);
    var r := VerifyToken(codec, req, now);
    assert r.body.value.data.value.valid;
  }

  /** The 200 reply of `verifyToken` built with the five-argument constructor. */
  function VerificationReply(isValid: bool, username: Option<string>, roles: Option<string>, remaining: Option<int>): Response<TokenVerificationResponse>
  {
    var response := TokenVerificationResponse(isValid, username, roles, remaining, Some(if isValid then "VALID" else "INVALID"));
    Response(StatusOk, Some(Success(Some(response), if isValid then "Token válido" else "Token inválido")))
  }

  /**
   * `getCurrentUser`: every "Bearer " in the header is deleted and the rest is
   * taken as the token. A missing header is the framework's 400.
   */
  function GetCurrentUser(codec: Codec, authHeader: Option<string>, now: int): (r: Response<UserInfo>)
    ensures authHeader.None? <==> r.status == StatusBadRequest
    ensures authHeader.Some? ==>
      var token := ReplaceAll(authHeader.value, BearerPrefix, "");
      && (r.status == StatusOk <==> codec.parse(token, now).Ok?)
      && (r.status == StatusOk ==>
            r.body == Some(Success(Some(UserInfo(codec.parse(token, now).value.subject, codec.parse(token, now).value.roles, true)),
                                   "Información de usuario obtenida")))
      && (r.status != StatusOk ==> r.status == StatusUnauthorized && r.body == Some(Error("Token inválido")))
  {
    match authHeader
    case None => Response(StatusBadRequest, None)
    case Some(h) =>
      var token := ReplaceAll(h, BearerPrefix, "");
      if ValidateJwtToken(codec, token, now) then
        match (GetUsername(codec, token, now), GetRoles(codec, token, now))
        case (Returned(username), Returned(roles)) =>
          Response(StatusOk, Some(Success(Some(UserInfo(username, roles, true)), "Información de usuario obtenida")))
        case _ => Response(StatusUnauthorized, Some(Error("Error al procesar el token")))
      else Response(StatusUnauthorized, Some(Error("Token inválido")))
  }

  /** Stripping a leading "Bearer " from a token that never contains it gives the token back, as the filter does. */
  lemma StripBearer(t: string)
    requires !Contains(t, BearerPrefix)
    ensures ReplaceAll(BearerPrefix + t, BearerPrefix, "") == t
    ensures ParseJwt(Some(BearerPrefix + t)) == Some(t)
  {
    var s := BearerPrefix + t;
    StartsWithConcat(BearerPrefix, t);
    assert s[..|BearerPrefix|] == BearerPrefix;
    ReplaceAllNoOccurrence(t, BearerPrefix, "");
  }

  /**
   * Unlike the filter, the current-user lookup also accepts the bare token
   * without the "Bearer " prefix.
   */
  lemma CurrentUserAcceptsBareToken(codec: Codec, t: string, now: int)
    requires !Contains(t, BearerPrefix)
    ensures ParseJwt(Some(t)).None?
    ensures GetCurrentUser(codec, Some(t), now).status == StatusOk <==> codec.parse(t, now).Ok?
  {
    ReplaceAllNoOccurrence(t, BearerPrefix, "");
    if StartsWith(t, BearerPrefix) {
      assert OccursAt(t, BearerPrefix, 0);
    }
  }

  /** A client path other than the health check goes through the filter. */
  lemma ClientPathIsFiltered(id: string)
    requires id != [] && '/' !in id && id != "health"
    ensures !ShouldNotFilter(ClientsBase + "/" + id)
  {
    var path := ClientsBase + "/" + id;
    assert path[|ClientsBase| + 1..] == id;
    assert path != "/api/v1/clients/health" by {
      assert "/api/v1/clients/health"[|ClientsBase| + 1..] == "health";
    }
    assert path[1] == 'a' && path[8] == 'c';
    assert !StartsWith(path, "/api/v1/auth/") by { assert "/api/v1/auth/"[8] == 'a'; }
    assert !StartsWith(path, "/v3/api-docs") by { assert "/v3/api-docs"[1] == 'v'; }
    assert !StartsWith(path, "/swagger-ui") by { assert "/swagger-ui"[1] == 's'; }
    assert !StartsWith(path, "/actuator") by { assert "/actuator"[1] == 'a' && "/actuator"[2] == 'c'; assert path[2] == 'p'; }
  }

  /**
   * As written, an administrator's login token is never accepted on the
   * update endpoint: the response reports "USER,ADMIN" but the token carries
   * no roles claim, so the filter grants only ROLE_USER and a well-formed
   * update is refused with 403 (an expired token gets 401, a malformed id or
   * body 400). The client is told 401 in every case.
   */
  lemma AdminLoginTokenCannotUpdate(codec: Codec, cfg: Config, password: string, authenticate: (string, string) -> Option<string>,
                                    now: int, id: string, bodyValid: bool)
    requires !IsBlank(password)
    requires authenticate("admin", password) == Some("admin")
    requires ReadsBack(codec, AuthenticationClaims("admin", now, cfg), now)
    requires id != [] && '/' !in id && id != "health"
    ensures var r := Login(codec, cfg, LoginRequest(Some("admin"), Some(password)), authenticate, now);
      var d := Admit(codec, Put, ClientsBase + "/" + id, Some(BearerPrefix + r.body.value.data.value.token.value), bodyValid, now);
      && r.status == StatusOk
      && r.body.value.data.value.roles == Some(AdminRoles)
      && d != Permit
      && d == (if !FreshAtIssue(now, cfg) then Unauthorized
               else if ParseLong(id).None? || !bodyValid then BadRequest
               else Forbidden)
      && Delivered(Put, d) == Unauthorized
  {
    AdminLoginSigns(codec, cfg, password, authenticate, now);
    RolelessTokenForbidden(codec, cfg, now, id, bodyValid);
  }

  /** A token for "admin" signed without roles never passes the update endpoint's role check. */
  lemma {:induction false} RolelessTokenForbidden(codec: Codec, cfg: Config, now: int, id: string, bodyValid: bool)
    requires ReadsBack(codec, AuthenticationClaims("admin", now, cfg), now)
    requires id != [] && '/' !in id && id != "health"
    ensures Admit(codec, Put, ClientsBase + "/" + id, Some(BearerPrefix + codec.sign(AuthenticationClaims("admin", now, cfg))), bodyValid, now)
      == if !FreshAtIssue(now, cfg) then Unauthorized
         else if ParseLong(id).None? || !bodyValid then BadRequest
         else Forbidden
  {
    var path := ClientsBase + "/" + id;
    ClientPathIsFiltered(id);
    LoginTokenPrincipal(codec, cfg, now, path);
    if FreshAtIssue(now, cfg) {
      var p := Principal("admin", [DefaultAuthority]);
      assert AdminAuthority !in p.authorities by {
        assert DefaultAuthority[5] != AdminAuthority[5];
      }
      assert RolePrefix + UserOrAdmin[0] == DefaultAuthority;
      assert HoldsAnyRole(p, UserOrAdmin);
      BindingPrecedesRoleCheck(Put, id, p, bodyValid);
      if ParseLong(id).Some? && bodyValid {
        MutationsNeedAdmin(Put, id, p, bodyValid);
      }
    } else {
      AnonymousNeedsPublicRule(Put, path, bodyValid);
      ClientPathNeedsRole(path);
    }
  }

  /** No one-segment client path other than the health check is public. */
  lemma {:induction false} ClientPathNeedsRole(path: string)
    requires SegmentAfter(ClientsBase, path).Some? && path != "/api/v1/clients/health"
    ensures AccessFor(path) != PermitAll
  {
    ClientPathMissesPublicRules(path);
    assert Matches(Rules[9].pattern, path);
    var k := FirstMatch(Rules, path).value;
    assert 6 <= k <= 9;
  }

  /** A one-segment client path other than the health check matches none of the six public rules. */
  lemma ClientPathMissesPublicRules(path: string)
    requires SegmentAfter(ClientsBase, path).Some? && path != "/api/v1/clients/health"
    ensures forall j :: 0 <= j < 6 ==> !Matches(Rules[j].pattern, path)
  {
    assert |path| > |ClientsBase| + 1 && path[..|ClientsBase| + 1] == ClientsBase + "/";
    assert path[1] == 'a' && path[2] == 'p' && path[8] == 'c';
    DiffersAt(path, 8, "/api/v1/auth");
    DiffersAt(path, 1, "/v3/api-docs");
    DiffersAt(path, 1, "/swagger-ui");
    DiffersAt(path, 1, "/swagger-ui.html");
    DiffersAt(path, 2, "/actuator");
  }

  /** The login of "admin", as written, succeeds, reports the administrator roles and signs a token without them. */
  lemma AdminLoginSigns(codec: Codec, cfg: Config, password: string, authenticate: (string, string) -> Option<string>, now: int)
    requires !IsBlank(password)
    requires authenticate("admin", password) == Some("admin")
    ensures var r := Login(codec, cfg, LoginRequest(Some("admin"), Some(password)), authenticate, now);
      && r.status == StatusOk
      && r.body.value.data.value.roles == Some(AdminRoles)
      && r.body.value.data.value.token == Some(codec.sign(AuthenticationClaims("admin", now, cfg)))
  {
    AdminIsNotBlank();
    AdminHasAdminRoles();
    assert ValidLogin(LoginRequest(Some("admin"), Some(password)));
  }

  /** A token signed without roles authenticates "admin", while unexpired, with the baseline authority only. */
  lemma LoginTokenPrincipal(codec: Codec, cfg: Config, now: int, path: string)
    requires ReadsBack(codec, AuthenticationClaims("admin", now, cfg), now)
    requires !ShouldNotFilter(path)
    ensures Intercept(codec, path, Some(BearerPrefix + codec.sign(AuthenticationClaims("admin", now, cfg))), now)
      == if FreshAtIssue(now, cfg) then Some(Principal("admin", [DefaultAuthority])) else None
  {
    var token := codec.sign(AuthenticationClaims("admin", now, cfg));
    StartsWithConcat(BearerPrefix, token);
    assert ParseJwt(Some(BearerPrefix + token)) == Some(token);
  }

  /**
   * With the roles signed in, the token of a successful login carries, while
   * unexpired, exactly the reported roles as authorities.
   */
  lemma LoginWithRolesTokenMatchesRoles(codec: Codec, cfg: Config, req: LoginRequest, authenticate: (string, string) -> Option<string>, now: int, path: string)
    requires ValidLogin(req)
    requires authenticate(req.username.value, req.password.value).Some?
    requires var name := authenticate(req.username.value, req.password.value).value;
      ReadsBack(codec, RolesClaims(name, DetermineUserRoles(req.username.value), now, cfg), now)
    requires !ShouldNotFilter(path)
    ensures var r := LoginWithRoles(codec, cfg, req, authenticate, now);
      var token := r.body.value.data.value.token.value;
      Intercept(codec, path, Some(BearerPrefix + token), now)
        == if FreshAtIssue(now, cfg)
           then Some(Principal(authenticate(req.username.value, req.password.value).value,
                               ParseAuthorities(r.body.value.data.value.roles)))
           else None
  {
    var r := LoginWithRoles(codec, cfg, req, authenticate, now);
    var name := authenticate(req.username.value, req.password.value).value;
    var c := RolesClaims(name, DetermineUserRoles(req.username.value), now, cfg);
    var token := r.body.value.data.value.token.value;
    assert token == codec.sign(c);
    ReadBackAtIssue(codec, c, now, cfg);
    StartsWithConcat(BearerPrefix, token);
    assert ParseJwt(Some(BearerPrefix + token)) == Some(token);
  }

  /** The corrected login of "admin" succeeds and signs the administrator roles. */
  lemma AdminLoginWithRolesSigns(codec: Codec, cfg: Config, password: string, authenticate: (string, string) -> Option<string>, now: int)
    requires !IsBlank(password)
    requires authenticate("admin", password) == Some("admin")
    ensures var r := LoginWithRoles(codec, cfg, LoginRequest(Some("admin"), Some(password)), authenticate, now);
      && r.status == StatusOk
      && r.body.value.data.value.token == Some(codec.sign(RolesClaims("admin", AdminRoles, now, cfg)))
  {
    AdminIsNotBlank();
    AdminHasAdminRoles();
    assert ValidLogin(LoginRequest(Some("admin"), Some(password)));
  }

  lemma AdminIsNotBlank()
    ensures !IsBlank("admin")
  {
    assert !IsTrimSpace("admin"[0]);
    BlankIffAllSpace("admin");
  }

  lemma AdminHasAdminRoles()
    ensures DetermineUserRoles("admin") == AdminRoles
  {
    assert ToLower("admin") == "admin";
  }

  /** A token signed with the administrator roles authenticates, while unexpired, as a principal holding ROLE_ADMIN. */
  lemma AdminTokenPrincipal(codec: Codec, cfg: Config, now: int, path: string)
    requires ReadsBack(codec, RolesClaims("admin", AdminRoles, now, cfg), now)
    requires !ShouldNotFilter(path)
    ensures Intercept(codec, path, Some(BearerPrefix + codec.sign(RolesClaims("admin", AdminRoles, now, cfg))), now)
      == if FreshAtIssue(now, cfg) then Some(Principal("admin", ["ROLE_USER", "ROLE_ADMIN"])) else None
  {
    var c := RolesClaims("admin", AdminRoles, now, cfg);
    var token := codec.sign(c);
    ReadBackAtIssue(codec, c, now, cfg);
    StartsWithConcat(BearerPrefix, token);
    assert ParseJwt(Some(BearerPrefix + token)) == Some(token);
    UserAdminAuthorities();
  }

  /**
   * With the roles signed in, an administrator's unexpired login token is
   * accepted on the update endpoint for any id and body that bind.
   */
  lemma AdminLoginWithRolesCanUpdate(codec: Codec, cfg: Config, password: string, authenticate: (string, string) -> Option<string>,
                                     now: int, id: string, bodyValid: bool)
    requires !IsBlank(password)
    requires authenticate("admin", password) == Some("admin")
    requires ReadsBack(codec, RolesClaims("admin", AdminRoles, now, cfg), now)
    requires id != [] && '/' !in id && id != "health"
    ensures var r := LoginWithRoles(codec, cfg, LoginRequest(Some("admin"), Some(password)), authenticate, now);
      && r.status == StatusOk
      && Admit(codec, Put, ClientsBase + "/" + id, Some(BearerPrefix + r.body.value.data.value.token.value), bodyValid, now)
         == if !FreshAtIssue(now, cfg) then Unauthorized
            else if ParseLong(id).None? || !bodyValid then BadRequest
            else Permit
  {
    AdminLoginWithRolesSigns(codec, cfg, password, authenticate, now);
    AdminTokenCanUpdate(codec, cfg, now, id, bodyValid);
  }

  /** A token signed with the administrator roles passes the update endpoint's role check while unexpired. */
  lemma AdminTokenCanUpdate(codec: Codec, cfg: Config, now: int, id: string, bodyValid: bool)
    requires ReadsBack(codec, RolesClaims("admin", AdminRoles, now, cfg), now)
    requires id != [] && '/' !in id && id != "health"
    ensures Admit(codec, Put, ClientsBase + "/" + id, Some(BearerPrefix + codec.sign(RolesClaims("admin", AdminRoles, now, cfg))), bodyValid, now)
      == if !FreshAtIssue(now, cfg) then Unauthorized
         else if ParseLong(id).None? || !bodyValid then BadRequest
         else Permit
  {
    var path := ClientsBase + "/" + id;
    ClientPathIsFiltered(id);
    AdminTokenPrincipal(codec, cfg, now, path);
    if FreshAtIssue(now, cfg) {
      var p := Principal("admin", ["ROLE_USER", "ROLE_ADMIN"]);
      assert AdminAuthority == p.authorities[1];
      AdminHoldsRoles(p);
      BindingPrecedesRoleCheck(Put, id, p, bodyValid);
      if ParseLong(id).Some? && bodyValid {
        MutationsNeedAdmin(Put, id, p, bodyValid);
      }
    } else {
      AnonymousNeedsPublicRule(Put, path, bodyValid);
      ClientPath(Put, id);
      ClientPathNeedsRole(path);
    }
  }
}
