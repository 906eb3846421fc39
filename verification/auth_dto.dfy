/**
 * AuthDTO: the authentication request and response objects, including the
 * two `toString` renderings that keep credentials out of the logs. The
 * `issuedAt`, `verifiedAt` and `lastLogin` clock stamps are not modelled.
 */
module AuthDto {
  import opened Basics

  datatype LoginRequest = LoginRequest(username: Option<string>, password: Option<string>)

  datatype TokenVerificationRequest = TokenVerificationRequest(token: Option<string>)

  datatype LoginResponse = LoginResponse(
    token: Option<string>,
    tokenType: string,
    username: Option<string>,
    roles: Option<string>,
    expiresIn: int)

  datatype TokenVerificationResponse = TokenVerificationResponse(
    valid: bool,
    username: Option<string>,
    roles: Option<string>,
    remainingTime: Option<int>,
    status: Option<string>)

  datatype UserInfo = UserInfo(username: Option<string>, roles: Option<string>, active: bool)

  const TokenType: string := "Bearer"

  const Protected: string := "[PROTECTED]"

  /** How many token characters `TokenVerificationRequest.toString` shows. */
  const LoggedTokenChars: nat := 10

  /** The four-argument `LoginResponse` constructor; the type is always "Bearer". */
  function NewLoginResponse(token: Option<string>, username: Option<string>, roles: Option<string>, expiresIn: int): (r: LoginResponse)
    ensures r.tokenType == TokenType
    ensures r.token == token && r.username == username && r.roles == roles && r.expiresIn == expiresIn
  {
    LoginResponse(token, TokenType, username, roles, expiresIn)
  }

  /** The three-argument `TokenVerificationResponse` constructor: the status follows the flag, no remaining time. */
  function BasicVerification(valid: bool, username: Option<string>, roles: Option<string>): (r: TokenVerificationResponse)
    ensures r.status == Some("VALID") <==> valid
    ensures r.status == Some("INVALID") <==> !valid
    ensures r.valid == valid && r.remainingTime.None?
  {
    TokenVerificationResponse(valid, username, roles, None, Some(if valid then "VALID" else "INVALID"))
  }

  /** `LoginRequest.toString`: the username, and a fixed placeholder where the password would be. */
  function LoginRequestToString(req: LoginRequest): string
  {
    "LoginRequest{username='" + Show(req.username) + "'" + ", password='" + Protected + "'" + "}"
  }

  /** The rendering never depends on the password, and it carries the placeholder. */
  lemma LoginRequestHidesPassword(username: Option<string>, p1: Option<string>, p2: Option<string>)
    ensures LoginRequestToString(LoginRequest(username, p1)) == LoginRequestToString(LoginRequest(username, p2))
    ensures Contains(LoginRequestToString(LoginRequest(username, p1)), Protected)
  {
    var s := LoginRequestToString(LoginRequest(username, p1));
    var i := |"LoginRequest{username='" + Show(username) + "'" + ", password='"|;
    assert s[i..i + |Protected|] == Protected;
    assert OccursAt(s, Protected, i);
  }

  /** `TokenVerificationRequest.toString`: at most ten token characters followed by "...", or "null". */
  function TokenVerificationRequestToString(req: TokenVerificationRequest): (s: string)
  {
    var shown := match req.token
      case None => "null"
      case Some(t) => t[..if |t| < LoggedTokenChars then |t| else LoggedTokenChars] + "...";
    "TokenVerificationRequest{token='" + shown + "'" + "}"
  }

  /** Two tokens that agree on their first ten characters are logged identically. */
  lemma VerificationRequestShowsOnlyPrefix(t1: string, t2: string)
    requires |t1| >= LoggedTokenChars && |t2| >= LoggedTokenChars
    requires t1[..LoggedTokenChars] == t2[..LoggedTokenChars]
    ensures TokenVerificationRequestToString(TokenVerificationRequest(Some(t1)))
         == TokenVerificationRequestToString(TokenVerificationRequest(Some(t2)))
  {
  }

  /** The logged form of a token is never longer than ten characters plus the ellipsis. */
  lemma VerificationRequestBounded(req: TokenVerificationRequest)
    ensures |TokenVerificationRequestToString(req)| <= |"TokenVerificationRequest{token='"| + LoggedTokenChars + 3 + 2
  {
  }
}
