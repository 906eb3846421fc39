# Client registry service: security pipeline and business rules in Dafny

This project models the core of a Spring service that keeps a registry of
clients behind JWT bearer authentication. It models the two halves of the
service as pure functions over immutable values:

- **Request security.**
  - `Jwt` models JwtUtil. The signing library is an abstract codec with a `sign` and a `parse(token, now)` function.
  - `AuthFilter` models the bearer extraction, role parsing and principal decision of JwtAuthenticationFilter.
  - `Binding` models Spring MVC's conversion of the `{id}` path segment to a `Long`.
  - `Policy` models the ordered URL rule table of SecurityConfig, together with the controller's request mapping and its `@PreAuthorize` expressions.
  - `EntryPoint` models the 401 body of JwtAuthenticationEntryPoint.
  - `AuthDto` models the auth DTOs and their `toString` masking.
  - `AuthApi` models AuthController: login, test token, verify and current user.
- **Client registry.**
  - `Dates` models `LocalDate`, `Period.between` and `plusYears` on proleptic Gregorian dates.
  - `ClientEntity` models the entity.
  - `ClientDto` models the DTOs and their Bean Validation constraints.
  - `ClientMapper` models the mapper.
  - `Repository` models the JPA repository. It is an in-memory table keyed by identity, with the IDENTITY sequence.
  - `Statistics` models StatisticsService.
  - `ClientService` models the service.
  - `ClientApi` models the REST handlers of ClientController.

`Basics` holds the Java string operations the code relies on:
- `trim` and `hasText`;
- `split` and a comma join;
- `replace`;
- ASCII `toLowerCase`;
- 32-bit wrap-around.

The clock (`now` in epoch milliseconds, `today` as a date), the credential
check, the system property of the active profile and `Math.sqrt` are
parameters. A thrown exception is a value:
- an `Attempt` or `Option` result in the JWT extractors and the mapper;
- a `ServiceError` in the service;
- a status code in the handlers.

Behaviours of the code that the model keeps:
- Role parsing neither upper-cases nor de-duplicates. The result is an ordered list.
- A roles claim such as "," that is not blank but has no non-empty field yields no authority at all, not the baseline ROLE_USER.
- The diagnostic part of the 401 body is on by default, because an unset profile counts as "development".
- Tokens issued by `/login` carry no roles claim, so they authenticate with ROLE_USER only (see Findings).
- The claim extractors catch only `JwtException`. An empty token's `IllegalArgumentException` escapes to the caller, and the filter's catch-all turns it into "no principal". Only `validateJwtToken` is total.
- The clock is in epoch milliseconds, but a token stores its issue and expiry instants in whole seconds. Read back, an expiry is cut to the second below, so a token lives up to a second less than the configured lifetime.
- A role rule needs any one of its roles, not all of them.
- Argument binding comes before the role check. A PUT or DELETE whose `{id}` is no `Long`, or an update whose body fails validation, is a 400 even for a principal without ROLE_ADMIN.
- A refusal with 403 or 400 is a `sendError`, which Tomcat re-dispatches to `/error`. The JWT filter does not run on that dispatch and the stateless session keeps no principal, so the catch-all rule sends the client the entry point's 401 body instead.

## Model

| member | source | states |
|---|---|---|
| Jwt.AuthenticationClaims | src/main/java/com/desafio/clientes/infraestructure/security/JwtUtil.java:60-73 | the login overload signs the subject, the issue instant and expiry = issue + `jwtExpirationMs`, and no roles claim |
| Jwt.RolesClaims | src/main/java/com/desafio/clientes/infraestructure/security/JwtUtil.java:82-94 | the custom overload signs the same subject, issue instant and expiry, plus exactly the given roles claim |
| Jwt.OverloadsDifferOnlyInRoles | src/main/java/com/desafio/clientes/infraestructure/security/JwtUtil.java:60-94 | the two overloads' claims agree except for the roles claim |
| Jwt.ValidateJwtToken | src/main/java/com/desafio/clientes/infraestructure/security/JwtUtil.java:168-193 | true exactly when the parser accepts the token; every parser error, an empty token included, is false and nothing escapes |
| Jwt.ParseForExtraction | src/main/java/com/desafio/clientes/infraestructure/security/JwtUtil.java:102-109 | the extractors' shared parse: a JwtException becomes null, an empty-token IllegalArgumentException escapes, a valid token yields its claims |
| Jwt.GetUsername | src/main/java/com/desafio/clientes/infraestructure/security/JwtUtil.java:102-116 | the subject of a parsable token; null for any JwtException; the empty-token exception escapes |
| Jwt.GetRoles | src/main/java/com/desafio/clientes/infraestructure/security/JwtUtil.java:124-138 | the roles claim of a parsable token; null for any JwtException; the empty-token exception escapes |
| Jwt.GetExpiration | src/main/java/com/desafio/clientes/infraestructure/security/JwtUtil.java:146-160 | the expiry of a parsable token; null for any JwtException; the empty-token exception escapes |
| Jwt.GetTokenRemainingTime | src/main/java/com/desafio/clientes/infraestructure/security/JwtUtil.java:201-211 | never negative; `max(0, exp - now)` when an expiry is readable, 0 when it is not |
| Jwt.WholeSecond | src/main/java/com/desafio/clientes/infraestructure/security/JwtUtil.java:83-89 | the instant a token keeps is a multiple of 1000 and lies less than a second from the given one, toward zero |
| Jwt.WholeSecondIdempotent | src/main/java/com/desafio/clientes/infraestructure/security/JwtUtil.java:83-89 | an instant already kept in whole seconds is kept unchanged, and it is kept unchanged exactly when it is a multiple of 1000 |
| Jwt.ReadBackAtIssue | src/main/java/com/desafio/clientes/infraestructure/security/JwtUtil.java:82-94 | a token read back at its issue instant yields its claims with the instants cut to the second, subject and roles unchanged, unless it is already expired |
| Jwt.RemainingTimeAtIssue | src/main/java/com/desafio/clientes/infraestructure/security/JwtUtil.java:201-211 | read back at its issue instant, the remaining time is `max(0, exp - now)` for the expiry cut to the second, and the token is valid exactly when that expiry is not before `now`; with `now >= 0` and a lifetime of at least a second it is valid with between lifetime - 1000 (exclusive) and lifetime ms left |
| AuthFilter.BearerHeaderHasText | src/main/java/com/desafio/clientes/infraestructure/security/JwtAuthenticationFilter.java:114 | a header that starts with "Bearer " always passes `hasText` |
| AuthFilter.ParseJwt | src/main/java/com/desafio/clientes/infraestructure/security/JwtAuthenticationFilter.java:111-121 | a token exactly when the header starts with the case-sensitive "Bearer ", and then the header is prefix + token |
| AuthFilter.Authority | src/main/java/com/desafio/clientes/infraestructure/security/JwtAuthenticationFilter.java:140-144 | the result starts with ROLE_; a name already prefixed is kept unchanged |
| AuthFilter.DropEmpty | src/main/java/com/desafio/clientes/infraestructure/security/JwtAuthenticationFilter.java:138 | exactly the non-empty parts are kept, and the count drops by the number of empty parts |
| AuthFilter.DropEmptyConcat | src/main/java/com/desafio/clientes/infraestructure/security/JwtAuthenticationFilter.java:138 | the filter keeps order: filtering a concatenation filters each half |
| AuthFilter.DropEmptyNothingLeft | src/main/java/com/desafio/clientes/infraestructure/security/JwtAuthenticationFilter.java:138 | nothing survives exactly when every part is empty |
| AuthFilter.TrailingEmptiesInvisible | src/main/java/com/desafio/clientes/infraestructure/security/JwtAuthenticationFilter.java:136-138 | Java's removal of trailing empty fields in `split` changes nothing after the trim and the filter |
| AuthFilter.FieldsConcat | src/main/java/com/desafio/clientes/infraestructure/security/JwtAuthenticationFilter.java:136-138 | the fields of `a,b` are the fields of `a` followed by those of `b` |
| AuthFilter.FieldsSingle | src/main/java/com/desafio/clientes/infraestructure/security/JwtAuthenticationFilter.java:136-138 | a comma-free text is one field, its trim, or none when it is blank |
| AuthFilter.FieldsEmptyIff | src/main/java/com/desafio/clientes/infraestructure/security/JwtAuthenticationFilter.java:136-138 | no field survives exactly when every comma segment is blank |
| AuthFilter.Fields | src/main/java/com/desafio/clientes/infraestructure/security/JwtAuthenticationFilter.java:136-138 | every kept field is non-empty, trimmed and comma-free |
| AuthFilter.ParseAuthorities | src/main/java/com/desafio/clientes/infraestructure/security/JwtAuthenticationFilter.java:129-150 | null or blank gives exactly [ROLE_USER]; otherwise every authority starts with ROLE_ and there is at most one per comma segment |
| AuthFilter.AuthorityCount | src/main/java/com/desafio/clientes/infraestructure/security/JwtAuthenticationFilter.java:136-146 | a non-blank claim yields one authority per non-blank comma segment, and none exactly when every segment is blank |
| AuthFilter.ParseSingleRole | src/main/java/com/desafio/clientes/infraestructure/security/JwtAuthenticationFilter.java:136-146 | a non-blank comma-free claim gives the one authority of its trim |
| AuthFilter.ParseAcrossComma | src/main/java/com/desafio/clientes/infraestructure/security/JwtAuthenticationFilter.java:129-146 | order is kept across a comma: the authorities of `a,b` are those of `a` then those of `b`, a blank side giving nothing rather than ROLE_USER |
| AuthFilter.ParseSegments | src/main/java/com/desafio/clientes/infraestructure/security/JwtAuthenticationFilter.java:136-146 | for any non-blank list of comma-free segments, one authority per segment that is not blank, trimmed and normalised, in segment order |
| AuthFilter.TwoCleanRoles | src/main/java/com/desafio/clientes/infraestructure/security/JwtAuthenticationFilter.java:136-146 | two clean role names around one comma give their two authorities, in order |
| AuthFilter.ParseJoinedRoles | src/main/java/com/desafio/clientes/infraestructure/security/JwtAuthenticationFilter.java:136-146 | parsing the comma join of clean role names gives their authorities in the same order |
| AuthFilter.NoCaseChangeNoDeduplication | src/main/java/com/desafio/clientes/infraestructure/security/JwtAuthenticationFilter.java:136-146 | a clean role named twice, such as "admin,admin", gives its ROLE_ authority twice, letter case unchanged: no upper-casing, no de-duplication |
| AuthFilter.UserAdminAuthorities | src/main/java/com/desafio/clientes/infraestructure/security/JwtAuthenticationFilter.java:136-146 | "USER,ADMIN" gives [ROLE_USER, ROLE_ADMIN] |
| AuthFilter.SeparatorsOnlyYieldNoAuthority | src/main/java/com/desafio/clientes/infraestructure/security/JwtAuthenticationFilter.java:130-146 | "," is not blank but keeps no field, so it yields an empty list, not ROLE_USER |
| AuthFilter.AuthorityClean | src/main/java/com/desafio/clientes/infraestructure/security/JwtAuthenticationFilter.java:140-144 | normalising a clean field keeps it clean, and normalising twice changes nothing |
| AuthFilter.AuthoritiesReparse | src/main/java/com/desafio/clientes/infraestructure/security/JwtAuthenticationFilter.java:136-146 | re-parsing the comma join of the authorities gives them back unchanged |
| AuthFilter.DoFilterInternal | src/main/java/com/desafio/clientes/infraestructure/security/JwtAuthenticationFilter.java:60-103 | a principal exactly when a bearer token was extracted, it validates and it has a subject; then its name is the subject and its authorities the parsed roles |
| AuthFilter.Intercept | src/main/java/com/desafio/clientes/infraestructure/security/JwtAuthenticationFilter.java:161-170 | skipped paths never carry a principal; other paths get the filter's decision; a principal implies a validated bearer token |
| Binding.DigitValue | src/main/java/com/desafio/clientes/controller/ClientController.java:148 | the value of an ASCII digit or letter in the radix, below the radix; for radix 10 exactly the decimal digits |
| Binding.ParseSigned | src/main/java/com/desafio/clientes/controller/ClientController.java:148 | the decimal reading of an `{id}` is within 64 bits and needs at least one digit |
| Binding.DecodeHex | src/main/java/com/desafio/clientes/controller/ClientController.java:148 | a hexadecimal `{id}` such as "0x1F" or "#1F" converts only within 64 bits |
| Binding.TrimAllWhitespace | src/main/java/com/desafio/clientes/controller/ClientController.java:148 | exactly the non-whitespace characters of the segment remain |
| Binding.ParseLong | src/main/java/com/desafio/clientes/controller/ClientController.java:148 | a converted `{id}` is within 64 bits, and a segment with neither a decimal digit nor '#', such as "abc" or "health", never converts |
| Binding.ParseLongRoundTrip | src/main/java/com/desafio/clientes/controller/ClientController.java:148 | every 64-bit id written in decimal converts back to itself |
| Policy.SegmentAfter | src/main/java/com/desafio/clientes/infraestructure/security/SecurityConfig.java:91 | the one non-empty, slash-free segment after the base, and the path is rebuilt from it; none when the path has no such segment |
| Policy.FirstMatchFrom | src/main/java/com/desafio/clientes/infraestructure/security/SecurityConfig.java:79-94 | the first matching rule at or after the start index: it matches and no earlier one does; none means no rule matches |
| Policy.FirstMatch | src/main/java/com/desafio/clientes/infraestructure/security/SecurityConfig.java:79-94 | the index of the first rule whose pattern matches, with no earlier match; none means no rule matches |
| Policy.AccessFor | src/main/java/com/desafio/clientes/infraestructure/security/SecurityConfig.java:79-94 | the fallback `authenticated` applies exactly when no listed rule matches |
| Policy.Route | src/main/java/com/desafio/clientes/controller/ClientController.java:63-359 | only a one-segment client path reaches update or delete, with that segment as id; only GET /api/v1/clients/health reaches the health check |
| Policy.MethodRoles | src/main/java/com/desafio/clientes/controller/ClientController.java:64-359 | the health check has no role expression; update and delete, and only they, need ADMIN |
| Policy.Deny | src/main/java/com/desafio/clientes/infraestructure/security/SecurityConfig.java:70-71 | the chain decides 401 for a refusal without a principal and 403 for one with a principal, before the error dispatch |
| Policy.Authorize | src/main/java/com/desafio/clientes/infraestructure/security/SecurityConfig.java:79-94 | permits exactly when the URL rule grants the principal and, for a request that reaches a handler, its arguments bind and its role expression, if any, is met; 400 exactly when the rule grants but the arguments do not bind; 401 only without a principal |
| Policy.Admit | src/main/java/com/desafio/clientes/infraestructure/security/SecurityConfig.java:98 | a 401 decision means the filter attached no principal |
| Policy.Delivered | src/main/java/com/desafio/clientes/infraestructure/security/SecurityConfig.java:70-75 | what the client receives: a permitted request proceeds, and every refusal, 403 and 400 included, reaches the client as the entry point's 401, because the error dispatch carries no principal |
| Policy.ErrorPathNeedsAuthentication | src/main/java/com/desafio/clientes/infraestructure/security/SecurityConfig.java:94 | only the catch-all rule covers "/error", so an anonymous request there is refused with 401 |
| Policy.AuthPathsArePublic | src/main/java/com/desafio/clientes/infraestructure/security/SecurityConfig.java:80 | every path under /api/v1/auth/ is permitted to anyone |
| Policy.HealthIsPublic | src/main/java/com/desafio/clientes/infraestructure/security/SecurityConfig.java:81-91 | the health path matches the one-segment client rule too, but the earlier public rule wins for every method: GET and the unmapped methods are permitted, PUT and DELETE are 400 because "health" is no `Long`, with or without a token |
| Policy.AnonymousNeedsPublicRule | src/main/java/com/desafio/clientes/infraestructure/security/SecurityConfig.java:80-94 | an anonymous request passes only where the first matching rule is public, and is refused with 401 elsewhere |
| Policy.UnmatchedPathsNeedAuthenticationOnly | src/main/java/com/desafio/clientes/infraestructure/security/SecurityConfig.java:94 | a path no rule names is permitted to any principal, whatever its authorities, and refused to anonymous callers |
| Policy.ClientSegmentGrantsRoles | src/main/java/com/desafio/clientes/infraestructure/security/SecurityConfig.java:91 | a principal holding ROLE_USER or ROLE_ADMIN passes the URL rule of every one-segment client path |
| Policy.ClientPath | src/main/java/com/desafio/clientes/controller/ClientController.java:180-233 | PUT and DELETE of /api/v1/clients/{id} reach the update and delete handlers with that segment as id |
| Policy.MutationsNeedAdmin | src/main/java/com/desafio/clientes/controller/ClientController.java:180-233 | PUT or DELETE of /api/v1/clients/{id} with arguments that bind is permitted exactly for principals holding ROLE_ADMIN, and is 403 otherwise |
| Policy.BindingPrecedesRoleCheck | src/main/java/com/desafio/clientes/controller/ClientController.java:180-233 | for a USER or ADMIN principal, PUT or DELETE of /api/v1/clients/{id} is 400 exactly when the id is no `Long` or an update body does not validate, whatever the principal's role |
| Policy.SkippedButProtectedPath | src/main/java/com/desafio/clientes/infraestructure/security/SecurityConfig.java:82 | /v3/api-docs.yaml is skipped by the filter but not opened by the table, so it is always refused with 401 |
| Policy.YamlMatchesNoRule | src/main/java/com/desafio/clientes/infraestructure/security/SecurityConfig.java:80-94 | no rule of the table matches /v3/api-docs.yaml, so only anyRequest().authenticated() applies |
| EntryPoint.DetermineErrorMessage | src/main/java/com/desafio/clientes/infraestructure/security/JwtAuthenticationEntryPoint.java:97-111 | the missing-token message exactly for an absent header, the format message exactly for a header without "Bearer ", the invalid-token message exactly otherwise |
| EntryPoint.MessageAgreesWithFilter | src/main/java/com/desafio/clientes/infraestructure/security/JwtAuthenticationEntryPoint.java:97-111 | the entry point blames the token exactly when the filter would have extracted one |
| EntryPoint.ObfuscateBearer | src/main/java/com/desafio/clientes/infraestructure/security/JwtAuthenticationEntryPoint.java:129-131 | the shown header is "Bearer ", a prefix of the token of at most 8 characters, then "..." |
| EntryPoint.ShownHeader | src/main/java/com/desafio/clientes/infraestructure/security/JwtAuthenticationEntryPoint.java:127-132 | every header other than a bearer Authorization is shown unchanged |
| EntryPoint.DiagnosticHeaders | src/main/java/com/desafio/clientes/infraestructure/security/JwtAuthenticationEntryPoint.java:119-137 | exactly the four listed headers that are present, each shown through the obfuscation |
| EntryPoint.DiagnosticsHideToken | src/main/java/com/desafio/clientes/infraestructure/security/JwtAuthenticationEntryPoint.java:129-131 | a bearer token reaches the diagnostics only through its first 8 characters |
| EntryPoint.Commence | src/main/java/com/desafio/clientes/infraestructure/security/JwtAuthenticationEntryPoint.java:68-88 | always success=false, status 401, error "Unauthorized", the path and the selected message; diagnostics exactly in development mode, carrying the method, the headers and the exception type |
| EntryPoint.DiagnosticsDefaultOn | src/main/java/com/desafio/clientes/infraestructure/security/JwtAuthenticationEntryPoint.java:144-148 | with the profile unset the diagnostics are on; profile "prod" turns them off |
| AuthDto.NewLoginResponse | src/main/java/com/desafio/clientes/application/dto/AuthDTO.java:81-87 | the token type is always "Bearer" and the four arguments are stored unchanged |
| AuthDto.BasicVerification | src/main/java/com/desafio/clientes/application/dto/AuthDTO.java:142-148 | status "VALID" exactly when valid, "INVALID" exactly when not, no remaining time |
| AuthDto.LoginRequestHidesPassword | src/main/java/com/desafio/clientes/application/dto/AuthDTO.java:48-54 | the rendering does not depend on the password and always contains [PROTECTED] |
| AuthDto.VerificationRequestShowsOnlyPrefix | src/main/java/com/desafio/clientes/application/dto/AuthDTO.java:110-116 | two tokens with the same first 10 characters are rendered identically |
| AuthDto.VerificationRequestBounded | src/main/java/com/desafio/clientes/application/dto/AuthDTO.java:110-116 | the rendering never holds more than 10 token characters and the ellipsis |
| AuthApi.DetermineUserRoles | src/main/java/com/desafio/clientes/controller/AuthController.java:215-223 | "USER,ADMIN" exactly for admin or testuser in any case, "USER" for every other name |
| AuthApi.RolesIgnoreCase | src/main/java/com/desafio/clientes/controller/AuthController.java:217 | the lookup gives the same roles for a name and its lower-case form |
| AuthApi.AdminSpellings | src/main/java/com/desafio/clientes/controller/AuthController.java:217-222 | ADMIN and Admin are administrators; administrator is not |
| AuthApi.Login | src/main/java/com/desafio/clientes/controller/AuthController.java:61-98 | 400 exactly for a blank field; for a valid request, 401 "Credenciales inválidas" exactly when authentication fails and 200 exactly when it succeeds; on 200 a token signed without roles, the looked-up roles and the configured lifetime |
| AuthApi.LoginWithRoles | src/main/java/com/desafio/clientes/controller/AuthController.java:72-81 | the corrected login: the same 400, 401 and 200 outcomes, and on 200 the token carries exactly the roles the response reports |
| AuthApi.GetTestToken | src/main/java/com/desafio/clientes/controller/AuthController.java:108-125 | always 200; the token is signed for testuser with "USER,ADMIN" and the response echoes exactly those |
| AuthApi.VerifyToken | src/main/java/com/desafio/clientes/controller/AuthController.java:135-162 | a well-formed request always gets 200; valid iff the parser accepts; VALID with subject, roles and `max(0, exp - now)` ms left (0 without an expiry), or INVALID with all three null |
| AuthApi.VerifyReadable | src/main/java/com/desafio/clientes/controller/AuthController.java:142-156 | verifying a readable token reports its subject, its roles and its remaining time |
| AuthApi.VerifyAgreesWithCurrentUser | src/main/java/com/desafio/clientes/controller/AuthController.java:135-206 | a bearer token verifies as valid exactly when /me accepts it, and both report the same user name and roles |
| AuthApi.IssuedTokenVerifies | src/main/java/com/desafio/clientes/controller/AuthController.java:108-162 | a token just issued by the test-token endpoint verifies, while unexpired, as testuser with "USER,ADMIN" and the lifetime cut to the second |
| AuthApi.GetCurrentUser | src/main/java/com/desafio/clientes/controller/AuthController.java:176-206 | every "Bearer " is deleted from the header; 200 with subject and roles exactly when the rest parses, else 401 "Token inválido" |
| AuthApi.StripBearer | src/main/java/com/desafio/clientes/controller/AuthController.java:180 | for a token without "Bearer " inside, deleting every occurrence and the filter's prefix cut agree |
| AuthApi.CurrentUserAcceptsBareToken | src/main/java/com/desafio/clientes/controller/AuthController.java:180-182 | a header that is a bare token with no prefix is refused by the filter yet accepted by /me |
| AuthApi.ClientPathIsFiltered | src/main/java/com/desafio/clientes/infraestructure/security/JwtAuthenticationFilter.java:161-170 | every one-segment client path other than the health check goes through the filter |
| AuthApi.AdminLoginTokenCannotUpdate | src/main/java/com/desafio/clientes/controller/AuthController.java:72-81 | as written, admin's login reports "USER,ADMIN" but its token is never permitted on PUT /api/v1/clients/{id}: 403 for a well-formed update, 400 for a malformed id or body, 401 once expired, and the client is told 401 in every case |
| AuthApi.AdminLoginSigns | src/main/java/com/desafio/clientes/controller/AuthController.java:66-87 | as written, the login of "admin" succeeds and reports "USER,ADMIN", but signs a token whose claims carry no roles |
| AuthApi.LoginTokenPrincipal | src/main/java/com/desafio/clientes/infraestructure/security/JwtAuthenticationFilter.java:129-133 | as written, admin's login token, which has no roles claim, authenticates while unexpired as admin with ROLE_USER alone, and no one once expired |
| AuthApi.RolelessTokenForbidden | src/main/java/com/desafio/clientes/controller/ClientController.java:180-192 | an unexpired token for "admin" without a roles claim gets 403 on a well-formed PUT /api/v1/clients/{id}, 400 when the id or body does not bind, and 401 once expired |
| AuthApi.ClientPathNeedsRole | src/main/java/com/desafio/clientes/infraestructure/security/SecurityConfig.java:80-91 | no one-segment client path other than the health check is public |
| AuthApi.LoginWithRolesTokenMatchesRoles | src/main/java/com/desafio/clientes/controller/AuthController.java:72-81 | with roles signed in, the filter reads back, while the token is unexpired, exactly the reported roles as the principal's authorities |
| AuthApi.AdminLoginWithRolesSigns | src/main/java/com/desafio/clientes/controller/AuthController.java:72-81 | the corrected admin login succeeds and signs the administrator roles |
| AuthApi.AdminTokenPrincipal | src/main/java/com/desafio/clientes/infraestructure/security/JwtAuthenticationFilter.java:60-103 | an unexpired token signed with "USER,ADMIN" authenticates as admin with [ROLE_USER, ROLE_ADMIN]; an expired one authenticates no one |
| AuthApi.AdminLoginWithRolesCanUpdate | src/main/java/com/desafio/clientes/controller/AuthController.java:72-81 | with roles signed in, admin's unexpired login token is permitted on PUT /api/v1/clients/{id} whenever the id and body bind |
| AuthApi.AdminTokenCanUpdate | src/main/java/com/desafio/clientes/controller/ClientController.java:180-192 | a token signed with the administrator roles passes the update endpoint while unexpired, unless the id or body does not bind |
| Dates.PeriodYearsCompleted | src/main/java/com/desafio/clientes/domain/entity/Client.java:70-72 | for birth on or before today, whole years are the year difference, minus one when today's month and day come earlier |
| Dates.PlusYears | src/main/java/com/desafio/clientes/domain/entity/Client.java:83-86 | same month and day n years on, with February 29 clamped to the 28th outside leap years |
| Dates.PlusYearsPeriod | src/main/java/com/desafio/clientes/domain/entity/Client.java:83-86 | measuring the added years back gives n, or n - 1 for a clamped February 29 |
| ClientEntity.NewClient | src/main/java/com/desafio/clientes/domain/entity/Client.java:55-62 | a transient client with the four given fields and created = updated = today |
| ClientEntity.CurrentAge | src/main/java/com/desafio/clientes/domain/entity/Client.java:70-72 | present exactly when the birth date is; the completed years from birth to today |
| ClientEntity.LifeExpectancyDate | src/main/java/com/desafio/clientes/domain/entity/Client.java:83-86 | present exactly when the birth date is; 78 years on, and measuring back gives 78 (77 for a clamped February 29) |
| ClientEntity.SettersKeepIdentity | src/main/java/com/desafio/clientes/domain/entity/Client.java:118-148 | the audited setters never change the id or the creation date |
| ClientEntity.EqualsIsRowIdentity | src/main/java/com/desafio/clientes/domain/entity/Client.java:167-174 | between distinct objects equality is symmetric and transitive, holds for a client with itself only when it has an id, and never for a transient client |
| ClientDto.Success | src/main/java/com/desafio/clientes/application/dto/ClientDTO.java:325-327 | success is true and the data and message are the given ones |
| ClientDto.Error | src/main/java/com/desafio/clientes/application/dto/ClientDTO.java:329-331 | success is false, data is null and the message is the given one |
| Statistics.Mean | src/main/java/com/desafio/clientes/application/service/StatisticsService.java:60-69 | 0.0 for an empty list, otherwise the value whose product with the count is the sum |
| Statistics.FindMinimum | src/main/java/com/desafio/clientes/application/service/StatisticsService.java:77-86 | null exactly for an empty list; otherwise an element no larger than any other |
| Statistics.FindMaximum | src/main/java/com/desafio/clientes/application/service/StatisticsService.java:94-103 | null exactly for an empty list; otherwise an element no smaller than any other |
| Statistics.Ascending | src/main/java/com/desafio/clientes/application/service/StatisticsService.java:116-117 | a sorted permutation of the values |
| Statistics.ExtremesOfSorted | src/main/java/com/desafio/clientes/application/service/StatisticsService.java:77-103 | the first and last sorted values are the minimum and the maximum |
| Statistics.Median | src/main/java/com/desafio/clientes/application/service/StatisticsService.java:111-131 | 0.0 for an empty list; otherwise the exact value that MedianBetweenExtremes and PercentileFiftyIsMedian pin down |
| Statistics.MedianAsWritten | src/main/java/com/desafio/clientes/application/service/StatisticsService.java:111-131 | 0.0 for an empty list; for an odd length it is the exact median, and otherwise it differs from the exact median by 0 or by exactly 2^31, because the two middle values are added with 32-bit wrap-around before halving |
| Statistics.MedianBetweenExtremes | src/main/java/com/desafio/clientes/application/service/StatisticsService.java:111-131 | the corrected median lies between the minimum and the maximum |
| Statistics.MedianAsWrittenAgrees | src/main/java/com/desafio/clientes/application/service/StatisticsService.java:124-126 | when the middle sum fits in an int, the code's median is the exact one |
| Statistics.MedianAsWrittenOverflows | src/main/java/com/desafio/clientes/application/service/StatisticsService.java:124-126 | for [2147483647, 2147483647] the exact median is 2147483647.0 but the code gives -1.0 |
| Statistics.Rank | src/main/java/com/desafio/clientes/application/service/StatisticsService.java:157-159 | for 0 < p < 100 the index lies in [0, n-1] and so do its floor and ceiling |
| Statistics.Interpolate | src/main/java/com/desafio/clientes/application/service/StatisticsService.java:160-166 | the interpolated value lies between the two neighbouring sorted values |
| Statistics.Percentile | src/main/java/com/desafio/clientes/application/service/StatisticsService.java:140-167 | 0.0 for an empty list or a percentile outside 0..100; the sorted minimum at 0 and maximum at 100 |
| Statistics.PercentileBetweenExtremes | src/main/java/com/desafio/clientes/application/service/StatisticsService.java:140-167 | every percentile of a non-empty list lies between its minimum and maximum |
| Statistics.PercentileFiftyIsMedian | src/main/java/com/desafio/clientes/application/service/StatisticsService.java:140-167 | the 50th percentile equals the exact median |
| Statistics.SquaredDeviations | src/main/java/com/desafio/clientes/application/service/StatisticsService.java:45-48 | the sum of squared deviations is never negative |
| Statistics.Variance | src/main/java/com/desafio/clientes/application/service/StatisticsService.java:37-50 | the population variance is never negative |
| Statistics.StandardDeviation | src/main/java/com/desafio/clientes/application/service/StatisticsService.java:29-52 | 0.0 for an empty or single-element list |
| Statistics.IsWithinNormalRange | src/main/java/com/desafio/clientes/application/service/StatisticsService.java:176-199 | true for fewer than 3 values |
| Statistics.MeanBetweenExtremes | src/main/java/com/desafio/clientes/application/service/StatisticsService.java:60-69 | the mean of a non-empty list lies between its minimum and maximum |
| Statistics.VarianceZeroIffConstant | src/main/java/com/desafio/clientes/application/service/StatisticsService.java:37-50 | the variance is 0 exactly when all values are equal |
| Statistics.ConstantIsNormal | src/main/java/com/desafio/clientes/application/service/StatisticsService.java:176-199 | a list of equal values is always within the normal range |
| Repository.Save | src/main/java/com/desafio/clientes/infraestructure/repository/ClientRepository.java:24 | succeeds exactly for a valid entity that is new or whose id has a row; an insert takes the next identity, an update keeps the stored creation date; the table invariant is kept |
| Repository.FindById | src/main/java/com/desafio/clientes/infraestructure/repository/ClientRepository.java:24 | present exactly when the id has a row, and then that row |
| Repository.DeleteById | src/main/java/com/desafio/clientes/infraestructure/repository/ClientRepository.java:24 | the row goes, every other row stays, an absent id is ignored; the table invariant is kept |
| Repository.Listing | src/main/java/com/desafio/clientes/infraestructure/repository/ClientRepository.java:24 | exactly the rows whose ids lie in the range |
| Repository.FindAll | src/main/java/com/desafio/clientes/infraestructure/repository/ClientRepository.java:24 | on a well-formed table, exactly the stored rows |
| Repository.FindAllCount | src/main/java/com/desafio/clientes/infraestructure/repository/ClientRepository.java:69-70 | findAll lists as many rows as `countTotalClients` counts |
| Repository.GetAllAges | src/main/java/com/desafio/clientes/infraestructure/repository/ClientRepository.java:60-61 | one age per listed row, in the same order |
| Repository.AgesOnePerClient | src/main/java/com/desafio/clientes/infraestructure/repository/ClientRepository.java:60-61 | getAllAges has one entry per stored client |
| Repository.CalculateAverageAge | src/main/java/com/desafio/clientes/infraestructure/repository/ClientRepository.java:51-52 | null exactly for an empty table; otherwise the value whose product with the count is the sum of the ages |
| Repository.FindByFirstNameAndLastName | src/main/java/com/desafio/clientes/infraestructure/repository/ClientRepository.java:36-43 | no result exactly when no row has both names; a single result is a stored row with both names and every such row equals it |
| Repository.FindByFirstNameContainingIgnoreCase | src/main/java/com/desafio/clientes/infraestructure/repository/ClientRepository.java:26-33 | exactly the stored rows whose first name contains the query, ignoring case |
| Repository.FindByAgeRange | src/main/java/com/desafio/clientes/infraestructure/repository/ClientRepository.java:80-81 | every row with min <= age <= max, and only those, ordered by age, each row once |
| Repository.InsertAddsOneRow | src/main/java/com/desafio/clientes/infraestructure/repository/ClientRepository.java:24 | an insert adds one row under the old next identity and leaves the others untouched |
| Repository.DeleteRemovesOneRow | src/main/java/com/desafio/clientes/infraestructure/repository/ClientRepository.java:24 | deleting a present row removes it and lowers the count by one |
| ClientMapper.ToEntity | src/main/java/com/desafio/clientes/application/mapper/ClientMapper.java:29-39 | null for null; otherwise a transient client with the request's four fields and both audit dates today |
| ClientMapper.ToDto | src/main/java/com/desafio/clientes/application/mapper/ClientMapper.java:48-64 | the stored fields copied, plus the full name, current age and life-expectancy date; fails exactly without a birth date |
| ClientMapper.ToDtoList | src/main/java/com/desafio/clientes/application/mapper/ClientMapper.java:72-80 | empty for null; otherwise the same length and order, element i converted by toDto |
| ClientMapper.MapToDto | src/main/java/com/desafio/clientes/application/mapper/ClientMapper.java:72-80 | succeeds exactly when every client has a birth date; element i is the conversion of client i |
| ClientMapper.UpdateEntity | src/main/java/com/desafio/clientes/application/mapper/ClientMapper.java:90-93 | a null client or null request gives the client back unchanged |
| ClientMapper.UpdateEntityIsPartial | src/main/java/com/desafio/clientes/application/mapper/ClientMapper.java:95-111 | exactly the present fields are overwritten; id and creation date never change; the modification date is today exactly when some field was set |
| ClientMapper.UpdateEntityIdempotent | src/main/java/com/desafio/clientes/application/mapper/ClientMapper.java:90-112 | applying the same request twice is the same as once |
| ClientMapper.ClientApiResponse | src/main/java/com/desafio/clientes/application/mapper/ClientMapper.java:121-123 | a success envelope with the message and the client's conversion; fails exactly without a birth date |
| ClientMapper.ListApiResponse | src/main/java/com/desafio/clientes/application/mapper/ClientMapper.java:148-150 | a success envelope with the message and the list's conversion; fails exactly when a client lacks a birth date |
| ClientService.CreateClient | src/main/java/com/desafio/clientes/application/service/ClientService.java:55-91 | succeeds exactly when no one has the name, both age and birth date are present, they agree within one year and the entity can be saved; a duplicate or incoherent age is an IllegalArgument with its message; success adds one row under the next id with the request's fields; a failure leaves the store |
| ClientService.CreateAdmitsValid | src/main/java/com/desafio/clientes/application/service/ClientService.java:55-91 | a valid, coherent, non-duplicate request with names of at most 100 characters is created |
| ClientService.CreateThenGet | src/main/java/com/desafio/clientes/application/service/ClientService.java:101-111 | a created client is found under its new id |
| ClientService.GetClientById | src/main/java/com/desafio/clientes/application/service/ClientService.java:101-111 | the row exactly when the id has one, else an IllegalArgument naming the id |
| ClientService.GetAllClients | src/main/java/com/desafio/clientes/application/service/ClientService.java:120-127 | on a well-formed table, exactly the stored rows, as many as the count |
| ClientService.UpdateClient | src/main/java/com/desafio/clientes/application/service/ClientService.java:137-157 | an unknown id is an IllegalArgument naming it and leaves the store; otherwise the partially updated row replaces the old one exactly when it can be saved |
| ClientService.UpdateKeepsIdentity | src/main/java/com/desafio/clientes/application/service/ClientService.java:137-157 | an update keeps the client's id and creation date |
| ClientService.DeleteClient | src/main/java/com/desafio/clientes/application/service/ClientService.java:165-181 | succeeds exactly for a present id and then removes that row only; an unknown id is an IllegalArgument naming it |
| ClientService.DeleteThenGet | src/main/java/com/desafio/clientes/application/service/ClientService.java:165-181 | after a delete the id is not found |
| ClientService.GetClientMetrics | src/main/java/com/desafio/clientes/application/service/ClientService.java:192-228 | all-zero metrics for an empty table; otherwise the count, the extreme ages and the deviation of the stored ages, and on a well-formed table the average is the exact mean of every stored age |
| ClientService.MetricsOrdered | src/main/java/com/desafio/clientes/application/service/ClientService.java:192-228 | on a non-empty table the average age lies between the youngest and the oldest |
| ClientService.FindClientsByFirstName | src/main/java/com/desafio/clientes/application/service/ClientService.java:237-244 | exactly the stored rows whose first name contains the query, ignoring case |
| ClientService.FindClientsByAgeRange | src/main/java/com/desafio/clientes/application/service/ClientService.java:254-266 | an IllegalArgument exactly when min > max; otherwise the rows within the range, all of them, sorted by age |
| ClientApi.Failure | src/main/java/com/desafio/clientes/controller/ClientController.java:85-96 | an IllegalArgument answers the handler's status with its message; anything else answers 500 "Error interno del servidor" |
| ClientApi.ClientReply | src/main/java/com/desafio/clientes/application/mapper/ClientMapper.java:121-123 | the given status with the client's conversion, or 500 when the conversion throws |
| ClientApi.ListReply | src/main/java/com/desafio/clientes/controller/ClientController.java:117-129 | 200 with the list's conversion, or 500 when a conversion throws |
| ClientApi.ListedRowsConvert | src/main/java/com/desafio/clientes/application/mapper/ClientMapper.java:72-80 | every row of a well-formed table has a birth date, so converting listed rows never throws |
| ClientApi.CreateClientHandler | src/main/java/com/desafio/clientes/controller/ClientController.java:63-97 | an invalid body is a framework 400; 201 exactly for a valid, accepted request, with the new row's conversion; a duplicate is 400 with its message; non-201 leaves the store |
| ClientApi.GetAllClientsHandler | src/main/java/com/desafio/clientes/controller/ClientController.java:103-130 | on a well-formed table, 200 with the conversion of every stored client, in listing order, and a message counting them |
| ClientApi.GetClientByIdHandler | src/main/java/com/desafio/clientes/controller/ClientController.java:137-171 | 404 with the id's message exactly for an unknown id; otherwise 200 with its conversion |
| ClientApi.UpdateClientHandler | src/main/java/com/desafio/clientes/controller/ClientController.java:180-215 | an invalid body is a framework 400; for a valid one 404 exactly for an unknown id; a non-200 leaves the store |
| ClientApi.UpdateReplacesAllFields | src/main/java/com/desafio/clientes/controller/ClientController.java:180-215 | a valid update of a stored client is 200 and replaces all four fields, keeping id and creation date |
| ClientApi.DeleteClientHandler | src/main/java/com/desafio/clientes/controller/ClientController.java:223-256 | 200 with no data exactly for a present id, removing that row; otherwise 404 with the id's message |
| ClientApi.DeleteTwiceNotFound | src/main/java/com/desafio/clientes/controller/ClientController.java:223-256 | deleting the same id twice gives 200 then 404 |
| ClientApi.MetricsHandler | src/main/java/com/desafio/clientes/controller/ClientController.java:265-291 | always 200 with exactly the service's metrics; their count is the table size, and all zero for an empty table |
| ClientApi.SearchHandler | src/main/java/com/desafio/clientes/controller/ClientController.java:300-352 | 400 exactly when no usable name and the ages are incomplete or invalid, with the matching message; a usable name searches the trimmed name and quotes it as sent; a valid range lists the range query's clients with "Se encontraron n clientes entre a y b años" |
| ClientApi.NameSearch | src/main/java/com/desafio/clientes/controller/ClientController.java:321-324 | on a well-formed table: 200, the clients whose first name contains the trimmed name ignoring case, and a message quoting the name as sent |
| ClientApi.RangeSearch | src/main/java/com/desafio/clientes/controller/ClientController.java:326-337 | on a well-formed table, 200 with the conversion of the range query's clients and the message counting them between the two ages |
| ClientApi.RangeSearchFindsExactly | src/main/java/com/desafio/clientes/controller/ClientController.java:325-337 | an age search lists exactly the stored clients whose age lies in the range, ends included, ordered by age, one conversion each |
| ClientApi.ListReplyIgnoresMessage | src/main/java/com/desafio/clientes/controller/ClientController.java:321-337 | the message of a list reply changes neither its status nor its data |
| ClientApi.NameTakesPrecedence | src/main/java/com/desafio/clientes/controller/ClientController.java:321-324 | with a non-blank name, the ages never change the answer |
| ClientApi.SearchIgnoresPadding | src/main/java/com/desafio/clientes/controller/ClientController.java:321-324 | padding around the name changes the message but not the status or the clients found |
| ClientApi.HealthHandler | src/main/java/com/desafio/clientes/controller/ClientController.java:358-371 | always 200 with data "OK" and the service message |

## Left out

- Signing, base64url and JWS parsing inside the JWT library: an abstract codec stands in for them. Constant-time comparison, revocation and refresh are absent from the code as well.
- `SecurityContextHolder`: the filter returns the principal instead of storing it in thread-local state. The filter chain always continues, so it is not modelled as a separate step.
- Concurrency between requests: every operation is a sequential function of its inputs.
- CORS, CSRF, session settings, the password encoder, the authentication manager and the filter registration: framework configuration with no decision logic.
- The credential check behind `authenticationManager.authenticate`: a parameter returning the authenticated name or nothing.
- Header names are matched exactly. The servlet container's case-insensitive header lookup is not modelled.
- Spring's path normalisation and trailing-slash matching are not modelled. Paths are compared as given.
- `toLowerCase` and `ContainingIgnoreCase` fold ASCII letters only. Unicode case folding is not modelled.
- Floating point: averages, variance, percentile weights and the 90% threshold are exact reals, and `Math.sqrt` is a parameter. Rounding of `double` is not modelled.
- Statistics.StandardDeviation: states only the guard cases; its value is `sqrt` of the variance, about which VarianceZeroIffConstant is proved.
- Statistics.IsWithinNormalRange: states only the small-list guard in its contract; ConstantIsNormal covers the zero-deviation case, and the 90% count is not characterised further.
- Statistics.Median: its contract states only the empty case; the value is characterised by MedianBetweenExtremes and PercentileFiftyIsMedian rather than by a closed form.
- ClientService.CreateClient: the `int` subtraction in the age check is exact here. It cannot overflow for ages the entity accepts together with a past birth date of a realistic year.
- `long` arithmetic in `getTokenRemainingTime` is exact here. Wrap-around of `long` needs instants about 292 million years away.
- Timestamps the DTOs and the 401 body stamp with `LocalDateTime.now()`, and `ClientMetrics.calculatedAt`.
- Logging, OpenAPI annotations and JSON serialisation.
- `Client.toString` and `hashCode`: no behaviour depends on them.
- `ClientMapper.toDto(null)` is not modelled: every caller passes a client it has just read or saved.
- The bodies the framework writes for a failed `@Valid` (400) or a missing request header are not modelled. Such a 400 is a `sendError` too, so it also reaches the client as the entry point's 401; `Policy.Delivered` states this for the security chain's decisions only, and the handlers return the 400 itself.
- The token's issue and expiry instants come from one clock reading. The code reads the clock twice, a few milliseconds apart.
- AuthFilter.DoFilterInternal: validation, `getUsernameFromJwtToken` and `getRolesFromJwtToken` share one instant `now`. The code reads the clock in each call, so a token that expires between validation and the roles lookup yields a principal with ROLE_USER only, and one that expires before the user name lookup yields none. The model does not represent those milliseconds-wide windows.
- AuthApi.VerifyToken: the four parses share one instant. A token expiring between them would get VALID with a null user name, null roles or a remaining time of 0 in the code; the model's VALID always carries the subject, the roles claim and the remaining time read at that one instant.
- AuthApi.GetCurrentUser: validation and the two lookups share one instant. A token expiring between them would get 200 with a null user name or null roles in the code; the model's 200 always carries the claims read at that one instant.
- `Jwt.ReadsBack` is a hypothesis, not a proof: the library reads its own token back with the instants cut to the second. Signature and key handling are not modelled, so the lemmas about issued tokens assume it.
- The `@RequestParam Integer` conversion of `minAge` and `maxAge` on the search endpoint: a value that is no integer is a 400 before the role check, and the model starts from converted values.
- A request that no handler maps (a 404 or 405) counts as permitted by the security chain; the reply the dispatcher then writes is not modelled.
- `Long` conversion of `{id}` reads ASCII digits only; the other Unicode digits `Character.digit` accepts, and the URL decoding of path segments, are not modelled.
- Row order is not modelled for queries without ORDER BY. They list rows in identity order. `findByAgeRange` orders by age, and the order among equal ages is unspecified.
- Saving an entity whose id has no row fails here. JPA's merge would insert it instead, but no caller can reach that case.
- `ClientesApplication.java` (bootstrap) and `ClientException.java` (unused) hold no logic.

## Findings

| source | as written | input that shows it | evidently intended | confidence | as-written member | corrected member |
|---|---|---|---|---|---|---|
| src/main/java/com/desafio/clientes/controller/AuthController.java:72-81 | `login` signs the token with `generateJwtToken(authentication)`. That token has no roles claim, so the filter grants only ROLE_USER, while the response reports the roles "USER,ADMIN" | user "admin" logs in with valid credentials, then sends PUT /api/v1/clients/1 with a valid body and the returned token. The request is refused with 403, which reaches the client as the entry point's 401 | the token carries the roles the response reports, as the test token does through `generateJwtToken(username, roles)` | not executed | AuthApi.AdminLoginTokenCannotUpdate | AuthApi.LoginWithRoles, AuthApi.LoginWithRolesTokenMatchesRoles, AuthApi.AdminLoginWithRolesCanUpdate |
| src/main/java/com/desafio/clientes/application/service/StatisticsService.java:124-126 | `calculateMedian` adds the two middle `int` values before dividing by 2.0, so the sum wraps around | [2147483647, 2147483647]: the median is 2147483647.0 but the code gives -1.0 | the exact mean of the two middle values, e.g. by widening before the addition | not executed | Statistics.MedianAsWritten, Statistics.MedianAsWrittenOverflows | Statistics.Median, Statistics.MedianBetweenExtremes, Statistics.PercentileFiftyIsMedian |
