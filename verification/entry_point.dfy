/**
 * JwtAuthenticationEntryPoint: the 401 body written when an unauthenticated
 * request is refused. The message is chosen from the Authorization header
 * alone; diagnostics (method, four selected headers with the bearer token cut
 * to eight characters, exception class name) are added in development mode.
 */
module EntryPoint {
  import opened Basics
  import opened AuthFilter

  /** The parts of the servlet request the entry point reads. */
  datatype Request = Request(httpMethod: string, uri: string, headers: map<string, string>)

  datatype Diagnostics = Diagnostics(httpMethod: string, headers: map<string, string>, exceptionType: string)

  /** The JSON map written to the response; the timestamp entry is not modelled. */
  datatype ErrorBody = ErrorBody(
    success: bool,
    status: int,
    error: string,
    message: string,
    path: string,
    diagnostics: Option<Diagnostics>)

  const StatusUnauthorized: int := 401

  const MissingTokenMessage: string := "Token de acceso requerido. Incluya el header 'Authorization: Bearer <token>'"

  const BadFormatMessage: string := "Formato de token inválido. Use 'Authorization: Bearer <token>'"

  const InvalidTokenMessage: string := "Token de acceso inválido o expirado. Por favor, autentíquese nuevamente"

  const AuthorizationHeader: string := "Authorization"

  /** The headers copied into the diagnostics, in the order they are looked up. */
  const RelevantHeaders: seq<string> := [AuthorizationHeader, "Content-Type", "User-Agent", "X-Forwarded-For"]

  /** How many token characters the diagnostics may reveal. */
  const ShownTokenChars: nat := 8

  function Header(r: Request, name: string): Option<string>
  {
    if name in r.headers then Some(r.headers[name]) else None
  }

  /** `determineErrorMessage`: missing header, header without the bearer prefix, or a bearer token that did not authenticate. */
  function DetermineErrorMessage(authHeader: Option<string>): (msg: string)
    ensures msg == MissingTokenMessage <==> authHeader.None?
    ensures msg == BadFormatMessage <==> authHeader.Some? && !StartsWith(authHeader.value, BearerPrefix)
    ensures msg == InvalidTokenMessage <==> authHeader.Some? && StartsWith(authHeader.value, BearerPrefix)
  {
    if authHeader.None? then MissingTokenMessage
    else if !StartsWith(authHeader.value, BearerPrefix) then BadFormatMessage
    else InvalidTokenMessage
  }

  /** The entry point blames the token exactly when the filter would have extracted one. */
  lemma MessageAgreesWithFilter(authHeader: Option<string>)
    ensures DetermineErrorMessage(authHeader) == InvalidTokenMessage <==> ParseJwt(authHeader).Some?
    ensures DetermineErrorMessage(authHeader) == MissingTokenMessage <==> authHeader.None?
  {
  }

  function Min(a: int, b: int): int
  {
    if a <= b then a else b
  }

  /** The bearer header as shown in the diagnostics: the prefix, at most eight token characters, then "...". */
  function ObfuscateBearer(value: string): (shown: string)
    requires StartsWith(value, BearerPrefix)
    ensures StartsWith(shown, BearerPrefix)
    ensures |BearerPrefix| + 3 <= |shown| <= |BearerPrefix| + ShownTokenChars + 3
    ensures shown[|shown| - 3..] == "..."
    ensures StartsWith(value[|BearerPrefix|..], shown[|BearerPrefix|..|shown| - 3])
  {
    var revealed := value[7..Min(15, |value|)];
    var shown := BearerPrefix + revealed + "...";
    assert shown[..|BearerPrefix|] == BearerPrefix;
    assert shown[|BearerPrefix|..|shown| - 3] == revealed;
    shown
  }

  /** One header value as it appears in the diagnostics. */
  function ShownHeader(name: string, value: string): (shown: string)
    ensures name != AuthorizationHeader || !StartsWith(value, BearerPrefix) ==> shown == value
  {
    if name == AuthorizationHeader && StartsWith(value, BearerPrefix) then ObfuscateBearer(value) else value
  }

  /** `getRequestHeaders`: the relevant headers that are present, the bearer token cut short. */
  function DiagnosticHeaders(r: Request): (h: map<string, string>)
    ensures forall n :: n in h <==> n in RelevantHeaders && n in r.headers
    ensures forall n :: n in h ==> h[n] == ShownHeader(n, r.headers[n])
  {
    map n | n in RelevantHeaders && n in r.headers :: ShownHeader(n, r.headers[n])
  }

  /** A bearer token reaches the diagnostics only through its first eight characters. */
  lemma DiagnosticsHideToken(r: Request, token: string)
    requires Header(r, AuthorizationHeader) == Some(BearerPrefix + token)
    ensures AuthorizationHeader in DiagnosticHeaders(r)
    ensures DiagnosticHeaders(r)[AuthorizationHeader] == BearerPrefix + token[..Min(ShownTokenChars, |token|)] + "..."
  {
    var v := BearerPrefix + token;
    StartsWithConcat(BearerPrefix, token);
    assert v[7..Min(15, |v|)] == token[..Min(ShownTokenChars, |token|)];
  }

  /** `isDevelopmentMode`: the system property "spring.profiles.active", "development" when unset. */
  predicate IsDevelopmentMode(profile: Option<string>)
  {
    var p := if profile.Some? then profile.value else "development";
    p == "development" || p == "dev"
  }

  /** `commence` and `createErrorResponse`. */
  function Commence(r: Request, exceptionType: string, profile: Option<string>): (body: ErrorBody)
    ensures body.status == StatusUnauthorized && !body.success && body.error == "Unauthorized"
    ensures body.path == r.uri
    ensures body.message == DetermineErrorMessage(Header(r, AuthorizationHeader))
    ensures body.diagnostics.Some? <==> IsDevelopmentMode(profile)
    ensures body.diagnostics.Some? ==>
      body.diagnostics.value == Diagnostics(r.httpMethod, DiagnosticHeaders(r), exceptionType)
  {
    ErrorBody(
      false,
      StatusUnauthorized,
      "Unauthorized",
      DetermineErrorMessage(Header(r, AuthorizationHeader)),
      r.uri,
      if IsDevelopmentMode(profile) then Some(Diagnostics(r.httpMethod, DiagnosticHeaders(r), exceptionType)) else None)
  }

  /** Without the system property the diagnostics are on; any other profile than development or dev turns them off. */
  lemma DiagnosticsDefaultOn(r: Request, exceptionType: string)
    ensures Commence(r, exceptionType, None).diagnostics.Some?
    ensures Commence(r, exceptionType, Some("prod")).diagnostics.None?
  {
  }
}
