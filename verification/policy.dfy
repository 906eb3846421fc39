/**
 * The authorization layer: SecurityConfig's ordered URL rule table (first
 * match wins, fallback "authenticated"), the controller's request mapping,
 * Spring MVC's argument binding and the @PreAuthorize role expressions. A
 * request without a principal that the table refuses goes to the entry point
 * (401). A refused principal (403) and a failed binding (400) are
 * `sendError` calls that Spring re-dispatches to "/error", where no principal
 * is present, so the client is answered by the entry point as well.
 */
module Policy {
  import opened Basics
  import opened Jwt
  import opened AuthFilter
  import opened Binding

  /** The three pattern shapes the table uses. */
  datatype Pattern =
    | Exact(path: string)       // "/api/v1/clients/health"
    | AnyBelow(base: string)    // "/actuator/**": the base itself or anything under it
    | OneSegment(base: string)  // "/api/v1/clients/*": exactly one more non-empty segment

  datatype Access = PermitAll | HasAnyRole(roles: seq<string>) | Authenticated

  datatype Rule = Rule(pattern: Pattern, access: Access)

  datatype Decision = Permit | Unauthorized | Forbidden | BadRequest

  datatype HttpMethod = Get | Post | Put | Delete | Options

  /** The handler a request reaches; `id` is the raw `{id}` path segment, before its conversion to `Long`. */
  datatype Endpoint =
    | CreateClient
    | ListClients
    | GetClient(id: string)
    | UpdateClient(id: string)
    | DeleteClient(id: string)
    | Metrics
    | Search
    | Health

  const ClientsBase: string := "/api/v1/clients"

  const UserOrAdmin: seq<string> := ["USER", "ADMIN"]

  const AdminOnly: seq<string> := ["ADMIN"]

  /** The authority `hasRole('ADMIN')` looks for. */
  const AdminAuthority: string := "ROLE_ADMIN"

  /** The single path segment after `base + "/"`, if the path has exactly one more. */
  function SegmentAfter(base: string, path: string): (seg: Option<string>)
    ensures seg.Some? ==> seg.value != [] && '/' !in seg.value && path == base + "/" + seg.value
    ensures seg.None? ==> !StartsWith(path, base + "/") || path == base + "/" || '/' in path[|base| + 1..]
  {
    if StartsWith(path, base + "/") && |path| > |base| + 1 && '/' !in path[|base| + 1..] then
      assert path == path[..|base| + 1] + path[|base| + 1..];
      Some(path[|base| + 1..])
    else None
  }

  predicate Matches(p: Pattern, path: string)
  {
    match p
    case Exact(e) => path == e
    case AnyBelow(b) => path == b || StartsWith(path, b + "/")
    case OneSegment(b) => SegmentAfter(b, path).Some?
  }

  /** A path that differs from a pattern's text at some index matches neither the exact nor the subtree pattern. */
  lemma DiffersAt(path: string, i: nat, b: string)
    requires i < |path| && i < |b| && path[i] != b[i]
    ensures !Matches(Exact(b), path) && !Matches(AnyBelow(b), path)
  {
    assert (b + "/")[i] == b[i];
  }

  /** A path that continues past a pattern's text with a character other than '/' is not below it. */
  lemma ContinuesPast(path: string, b: string)
    requires |path| > |b| && path[..|b|] == b && path[|b|] != '/'
    ensures !Matches(Exact(b), path) && !Matches(AnyBelow(b), path)
  {
    assert (b + "/")[|b|] == '/';
  }

  /** `filterChain`'s `authorizeHttpRequests` block, in declaration order. */
  const Rules: seq<Rule> := [
    Rule(AnyBelow("/api/v1/auth"), PermitAll),
    Rule(Exact("/api/v1/clients/health"), PermitAll),
    Rule(AnyBelow("/v3/api-docs"), PermitAll),
    Rule(AnyBelow("/swagger-ui"), PermitAll),
    Rule(Exact("/swagger-ui.html"), PermitAll),
    Rule(AnyBelow("/actuator"), PermitAll),
    Rule(Exact("/api/v1/clients/metrics"), HasAnyRole(UserOrAdmin)),
    Rule(Exact("/api/v1/clients/search"), HasAnyRole(UserOrAdmin)),
    Rule(Exact(ClientsBase), HasAnyRole(UserOrAdmin)),
    Rule(OneSegment(ClientsBase), HasAnyRole(UserOrAdmin))
  ]

  /** The first rule at index `i` or later whose pattern matches. */
  function FirstMatchFrom(rules: seq<Rule>, path: string, i: nat): (k: Option<nat>)
    requires i <= |rules|
    ensures k.Some? ==> i <= k.value < |rules| && Matches(rules[k.value].pattern, path)
    ensures k.Some? ==> forall j :: i <= j < k.value ==> !Matches(rules[j].pattern, path)
    ensures k.None? ==> forall j :: i <= j < |rules| ==> !Matches(rules[j].pattern, path)
    decreases |rules| - i
  {
    if i == |rules| then None
    else if Matches(rules[i].pattern, path) then Some(i)
    else FirstMatchFrom(rules, path, i + 1)
  }

  function FirstMatch(rules: seq<Rule>, path: string): (k: Option<nat>)
    ensures k.Some? ==> k.value < |rules| && Matches(rules[k.value].pattern, path)
    ensures k.Some? ==> forall j :: 0 <= j < k.value ==> !Matches(rules[j].pattern, path)
    ensures k.None? ==> forall j :: 0 <= j < |rules| ==> !Matches(rules[j].pattern, path)
  {
    FirstMatchFrom(rules, path, 0)
  }

  /** The access rule in force for a path: the first match, else `anyRequest().authenticated()`. */
  function AccessFor(path: string): (a: Access)
    ensures FirstMatch(Rules, path).None? ==> a == Authenticated
    ensures a == Authenticated ==> FirstMatch(Rules, path).None?
  {
    match FirstMatch(Rules, path)
    case Some(k) => Rules[k].access
    case None => Authenticated
  }

  /** `hasRole(r)` for some listed r: the principal holds "ROLE_" + r. */
  predicate HoldsAnyRole(p: Principal, roles: seq<string>)
  {
    exists i :: 0 <= i < |roles| && RolePrefix + roles[i] in p.authorities
  }

  predicate Grants(a: Access, principal: Option<Principal>)
  {
    match a
    case PermitAll => true
    case Authenticated => principal.Some?
    case HasAnyRole(roles) => principal.Some? && HoldsAnyRole(principal.value, roles)
  }

  /** Spring MVC's mapping of the controller: literal paths win over `{id}`. */
  function Route(m: HttpMethod, path: string): (e: Option<Endpoint>)
    ensures e.Some? && (e.value.UpdateClient? || e.value.DeleteClient?) ==>
      SegmentAfter(ClientsBase, path) == Some(e.value.id)
    ensures e == Some(Health) <==> m == Get && path == "/api/v1/clients/health"
  {
    if path == ClientsBase then
      match m
      case Post => Some(CreateClient)
      case Get => Some(ListClients)
      case _ => None
    else
      match SegmentAfter(ClientsBase, path)
      case None => None
      case Some(seg) =>
        match m
        case Get =>
          if seg == "health" then Some(Health)
          else if seg == "metrics" then Some(Metrics)
          else if seg == "search" then Some(Search)
          else Some(GetClient(seg))
        case Put => Some(UpdateClient(seg))
        case Delete => Some(DeleteClient(seg))
        case _ => None
  }

  /** The @PreAuthorize expression of each handler; the health check has none. */
  function MethodRoles(e: Endpoint): (roles: Option<seq<string>>)
    ensures roles.None? <==> e == Health
    ensures roles == Some(AdminOnly) <==> e.UpdateClient? || e.DeleteClient?
  {
    match e
    case Health => None
    case UpdateClient(_) => Some(AdminOnly)
    case DeleteClient(_) => Some(AdminOnly)
    case _ => Some(UserOrAdmin)
  }

  /**
   * Whether Spring MVC can bind the handler's arguments: `@PathVariable Long
   * id` needs a segment that converts, and `@Valid @RequestBody` a body that
   * reads and validates. Binding happens before the handler's proxy runs the
   * @PreAuthorize check.
   */
  predicate Binds(e: Endpoint, bodyValid: bool)
  {
    match e
    case CreateClient => bodyValid
    case GetClient(id) => ParseLong(id).Some?
    case UpdateClient(id) => ParseLong(id).Some? && bodyValid
    case DeleteClient(id) => ParseLong(id).Some?
    case _ => true
  }

  function Deny(principal: Option<Principal>): (d: Decision)
    ensures d != Permit
    ensures d == Unauthorized <==> principal.None?
  {
    if principal.None? then Unauthorized else Forbidden
  }

  /**
   * The URL rules first; then, for a request that reaches a handler, the
   * argument binding and the handler's role expression. `bodyValid` says
   * whether the request body reads and passes `@Valid`.
   */
  function Authorize(m: HttpMethod, path: string, principal: Option<Principal>, bodyValid: bool): (d: Decision)
    ensures d == Permit <==>
      && Grants(AccessFor(path), principal)
      && (Route(m, path).None?
          || (&& Binds(Route(m, path).value, bodyValid)
              && (MethodRoles(Route(m, path).value).None?
                  || (principal.Some? && HoldsAnyRole(principal.value, MethodRoles(Route(m, path).value).value)))))
    ensures d == BadRequest <==>
      Grants(AccessFor(path), principal) && Route(m, path).Some? && !Binds(Route(m, path).value, bodyValid)
    ensures d == Unauthorized ==> principal.None?
  {
    if !Grants(AccessFor(path), principal) then Deny(principal)
    else
      match Route(m, path)
      case None => Permit
      case Some(e) =>
        if !Binds(e, bodyValid) then BadRequest
        else
          match MethodRoles(e)
          case None => Permit
          case Some(roles) =>
            if principal.Some? && HoldsAnyRole(principal.value, roles) then Permit else Deny(principal)
  }

  /** The whole chain for one request: the JWT filter supplies the principal, then authorization decides. */
  function Admit(codec: Codec, m: HttpMethod, path: string, header: Option<string>, bodyValid: bool, now: int): (d: Decision)
    ensures d == Unauthorized ==> Intercept(codec, path, header, now).None?
  {
    Authorize(m, path, Intercept(codec, path, header, now), bodyValid)
  }

  /** The path Spring Boot re-dispatches a `sendError` to. */
  const ErrorPath: string := "/error"

  /**
   * The decision as the client receives it. The entry point's 401 is written
   * directly. A 403 or a 400 is a `sendError`, re-dispatched to the error
   * path: the JWT filter, a once-per-request filter, skips that dispatch, and
   * the stateless session keeps no principal, so the table is consulted
   * anonymously there.
   */
  function Delivered(m: HttpMethod, d: Decision): (seen: Decision)
    ensures seen == Permit <==> d == Permit
    ensures d != Permit ==> seen == Unauthorized
  {
    match d
    case Permit => Permit
    case Unauthorized => Unauthorized
    case _ =>
      ErrorPathNeedsAuthentication(m);
      Authorize(m, ErrorPath, None, true)
  }

  /** Only the catch-all rule covers the error path, and it reaches no handler of the model. */
  lemma ErrorPathNeedsAuthentication(m: HttpMethod)
    ensures AccessFor(ErrorPath) == Authenticated && Route(m, ErrorPath).None?
    ensures Authorize(m, ErrorPath, None, true) == Unauthorized
  {
    assert forall j :: 0 <= j < |Rules| ==> !Matches(Rules[j].pattern, ErrorPath);
    assert FirstMatch(Rules, ErrorPath).None?;
  }

  /** Everything under the authentication base is open to anyone, with or without a token. */
  lemma AuthPathsArePublic(m: HttpMethod, rest: string, principal: Option<Principal>, bodyValid: bool)
    ensures Authorize(m, "/api/v1/auth/" + rest, principal, bodyValid) == Permit
  {
    var path := "/api/v1/auth/" + rest;
    assert path[..|"/api/v1/auth/"|] == "/api/v1/auth/";
    assert Matches(Rules[0].pattern, path);
    assert FirstMatch(Rules, path) == Some(0);
    assert !StartsWith(path, ClientsBase) by {
      assert path[8] == 'a' && ClientsBase[8] == 'c';
    }
    assert path != ClientsBase && SegmentAfter(ClientsBase, path).None?;
  }

  /**
   * The health check falls under the one-segment client rule too, but the
   * earlier public rule wins, for every method. A GET reaches the health
   * handler; a PUT or DELETE maps to the `{id}` handlers, where "health" is no
   * `Long`, so it is a 400 even without a token; other methods reach no
   * handler.
   */
  lemma HealthIsPublic(m: HttpMethod, principal: Option<Principal>, bodyValid: bool)
    ensures Matches(Rules[9].pattern, "/api/v1/clients/health")
    ensures AccessFor("/api/v1/clients/health") == PermitAll
    ensures Authorize(m, "/api/v1/clients/health", principal, bodyValid)
      == if m == Put || m == Delete then BadRequest else Permit
  {
    HealthRule();
    if m == Put || m == Delete {
      HealthIdNeverBinds(m, principal, bodyValid);
    } else {
      HealthRoute(m);
    }
  }

  lemma HealthIdNeverBinds(m: HttpMethod, principal: Option<Principal>, bodyValid: bool)
    requires m == Put || m == Delete
    ensures Authorize(m, "/api/v1/clients/health", principal, bodyValid) == BadRequest
  {
    HealthRule();
    HealthRoute(m);
    HealthIsNoId();
    PublicPathUnboundId(m, "/api/v1/clients/health", "health", principal, bodyValid);
  }

  lemma PublicPathUnboundId(m: HttpMethod, path: string, seg: string, principal: Option<Principal>, bodyValid: bool)
    requires m == Put || m == Delete
    requires AccessFor(path) == PermitAll
    requires Route(m, path) == Some(if m == Put then UpdateClient(seg) else DeleteClient(seg))
    requires ParseLong(seg).None?
    ensures Authorize(m, path, principal, bodyValid) == BadRequest
  {
  }

  /** What the mapping makes of the health path, method by method. */
  lemma HealthRoute(m: HttpMethod)
    ensures Route(m, "/api/v1/clients/health") ==
      match m
      case Get => Some(Health)
      case Put => Some(UpdateClient("health"))
      case Delete => Some(DeleteClient("health"))
      case _ => None
  {
    HealthRule();
    assert "/api/v1/clients/health" != ClientsBase;
  }

  /** The health path, its one segment, and the public rule that matches it first. */
  lemma {:induction false} HealthRule()
    ensures SegmentAfter(ClientsBase, "/api/v1/clients/health") == Some("health")
    ensures Matches(Rules[9].pattern, "/api/v1/clients/health")
    ensures AccessFor("/api/v1/clients/health") == PermitAll
  {
    var path := "/api/v1/clients/health";
    assert path == ClientsBase + "/" + "health";
    assert path[..|ClientsBase + "/"|] == ClientsBase + "/";
    assert path[|ClientsBase| + 1..] == "health";
    assert !Matches(Rules[0].pattern, path) by {
      assert path[8] != "/api/v1/auth/"[8];
    }
    assert Matches(Rules[1].pattern, path);
    assert FirstMatchFrom(Rules, path, 1) == Some(1);
    assert FirstMatch(Rules, path) == Some(1);
  }

  lemma HealthIsNoId()
    ensures ParseLong("health").None?
  {
    var h := "health";
    assert forall k :: 0 <= k < |h| ==> !IsDecimalDigit(h[k]);
    assert '#' !in h;
  }

  /** Without a principal, every path the table does not declare public is refused with 401. */
  lemma AnonymousNeedsPublicRule(m: HttpMethod, path: string, bodyValid: bool)
    ensures Authorize(m, path, None, bodyValid) == Permit ==> AccessFor(path) == PermitAll
    ensures AccessFor(path) != PermitAll ==> Authorize(m, path, None, bodyValid) == Unauthorized
  {
  }

  /** Paths no rule names are open to any authenticated principal, whatever its authorities. */
  lemma UnmatchedPathsNeedAuthenticationOnly(m: HttpMethod, path: string, p: Principal, bodyValid: bool)
    requires FirstMatch(Rules, path).None?
    ensures Authorize(m, path, Some(p), bodyValid) == Permit
    ensures Authorize(m, path, None, bodyValid) == Unauthorized
  {
    assert path != ClientsBase by {
      assert Matches(Rules[8].pattern, ClientsBase);
    }
    assert SegmentAfter(ClientsBase, path).None? by {
      if SegmentAfter(ClientsBase, path).Some? {
        assert Matches(Rules[9].pattern, path);
      }
    }
  }

  /** A one-segment client path matches the client rule at the latest; a USER or ADMIN principal passes every rule it can meet. */
  lemma ClientSegmentGrantsRoles(path: string, p: Principal)
    requires SegmentAfter(ClientsBase, path).Some?
    requires HoldsAnyRole(p, UserOrAdmin)
    ensures Grants(AccessFor(path), Some(p))
  {
    assert Matches(Rules[9].pattern, path);
    assert FirstMatch(Rules, path).Some?;
    var k := FirstMatch(Rules, path).value;
    if k < 9 {
      assert Rules[k].access == PermitAll || Rules[k].access == HasAnyRole(UserOrAdmin);
    }
  }

  /** The path of one client and what the mapping makes of it for an update or a delete. */
  lemma ClientPath(m: HttpMethod, id: string)
    requires m == Put || m == Delete
    requires id != [] && '/' !in id
    ensures SegmentAfter(ClientsBase, ClientsBase + "/" + id) == Some(id)
    ensures Route(m, ClientsBase + "/" + id) == Some(if m == Put then UpdateClient(id) else DeleteClient(id))
  {
    var path := ClientsBase + "/" + id;
    assert path[..|ClientsBase + "/"|] == ClientsBase + "/";
    assert path[|ClientsBase| + 1..] == id;
    assert path != ClientsBase;
  }

  /**
   * Updating or deleting a client whose arguments bind passes exactly when
   * the principal holds ROLE_ADMIN; any other principal is refused with 403.
   */
  lemma MutationsNeedAdmin(m: HttpMethod, id: string, p: Principal, bodyValid: bool)
    requires m == Put || m == Delete
    requires id != [] && '/' !in id
    requires ParseLong(id).Some? && (m == Delete || bodyValid)
    ensures Authorize(m, ClientsBase + "/" + id, Some(p), bodyValid) == Permit <==> AdminAuthority in p.authorities
    ensures AdminAuthority !in p.authorities ==> Authorize(m, ClientsBase + "/" + id, Some(p), bodyValid) == Forbidden
  {
    var path := ClientsBase + "/" + id;
    ClientPath(m, id);
    var e := if m == Put then UpdateClient(id) else DeleteClient(id);
    assert Route(m, path) == Some(e);
    assert Binds(e, bodyValid) && MethodRoles(e) == Some(AdminOnly);
    if AdminAuthority in p.authorities {
      AdminHoldsRoles(p);
      ClientSegmentGrantsRoles(path, p);
    } else {
      NonAdminLacksAdminRole(p);
      if HoldsAnyRole(p, UserOrAdmin) {
        ClientSegmentGrantsRoles(path, p);
      }
    }
  }

  lemma AdminHoldsRoles(p: Principal)
    requires AdminAuthority in p.authorities
    ensures HoldsAnyRole(p, UserOrAdmin) && HoldsAnyRole(p, AdminOnly)
  {
    assert RolePrefix + UserOrAdmin[1] == AdminAuthority;
    assert RolePrefix + AdminOnly[0] == AdminAuthority;
  }

  lemma NonAdminLacksAdminRole(p: Principal)
    requires AdminAuthority !in p.authorities
    ensures !HoldsAnyRole(p, AdminOnly)
  {
    assert RolePrefix + AdminOnly[0] == AdminAuthority;
  }

  /**
   * Binding comes before the role check: a USER or ADMIN principal sending an
   * id that is no `Long` ("abc"), or an update body that does not validate,
   * gets 400 whether or not it holds ROLE_ADMIN.
   */
  lemma {:induction false} BindingPrecedesRoleCheck(m: HttpMethod, id: string, p: Principal, bodyValid: bool)
    requires m == Put || m == Delete
    requires id != [] && '/' !in id
    requires HoldsAnyRole(p, UserOrAdmin)
    ensures Authorize(m, ClientsBase + "/" + id, Some(p), bodyValid) == BadRequest
      <==> ParseLong(id).None? || (m == Put && !bodyValid)
  {
    var path := ClientsBase + "/" + id;
    ClientPath(m, id);
    ClientSegmentGrantsRoles(path, p);
    var e := if m == Put then UpdateClient(id) else DeleteClient(id);
    assert Route(m, path) == Some(e);
    assert Binds(e, bodyValid) <==> ParseLong(id).Some? && (m == Delete || bodyValid);
  }

  /**
   * The filter skips every path that merely starts with "/v3/api-docs", but
   * the table opens only that base and what lies below it: "/v3/api-docs.yaml"
   * therefore never carries a principal and is always refused with 401.
   */
  lemma SkippedButProtectedPath(codec: Codec, m: HttpMethod, header: Option<string>, bodyValid: bool, now: int)
    ensures ShouldNotFilter("/v3/api-docs.yaml")
    ensures Admit(codec, m, "/v3/api-docs.yaml", header, bodyValid, now) == Unauthorized
  {
    var path := "/v3/api-docs.yaml";
    assert path[..|"/v3/api-docs"|] == "/v3/api-docs";
    assert Intercept(codec, path, header, now).None?;
    YamlMatchesNoRule();
    assert FirstMatch(Rules, path).None?;
  }

  lemma YamlMatchesNoRule()
    ensures forall j :: 0 <= j < |Rules| ==> !Matches(Rules[j].pattern, "/v3/api-docs.yaml")
  {
    YamlMatchesNoPublicRule();
    YamlMatchesNoRoleRule();
  }

  lemma YamlMatchesNoPublicRule()
    ensures forall j :: 0 <= j < 6 ==> !Matches(Rules[j].pattern, "/v3/api-docs.yaml")
  {
    var path := "/v3/api-docs.yaml";
    DiffersAt(path, 1, "/api/v1/auth");
    DiffersAt(path, 1, "/api/v1/clients/health");
    ContinuesPast(path, "/v3/api-docs");
    DiffersAt(path, 1, "/swagger-ui");
    DiffersAt(path, 1, "/swagger-ui.html");
    DiffersAt(path, 1, "/actuator");
  }

  lemma YamlMatchesNoRoleRule()
    ensures forall j :: 6 <= j < |Rules| ==> !Matches(Rules[j].pattern, "/v3/api-docs.yaml")
  {
    var path := "/v3/api-docs.yaml";
    assert !Matches(Rules[6].pattern, path);
    assert !Matches(Rules[7].pattern, path);
    assert !Matches(Rules[8].pattern, path);
    assert !Matches(Rules[9].pattern, path) by { assert path[1] != (ClientsBase + "/")[1]; }
  }
}
