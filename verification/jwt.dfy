/**
 * JwtUtil: token issuance (claims and expiry), total validation, the claim
 * extractors and the remaining-lifetime computation. The JJWT library with the
 * configured HMAC key is the `Codec` parameter: `sign` turns claims into a
 * compact token and `parse` verifies and decodes one at a given instant.
 */
module Jwt {
  import opened Basics

  /** The claims the service writes or reads: sub, the custom "roles" claim, iat and exp (epoch milliseconds). */
  datatype Claims = Claims(subject: Option<string>, roles: Option<string>, issuedAt: int, expiration: Option<int>)

  /** The exceptions JJWT's `parseClaimsJws` raises, one per catch clause of `validateJwtToken`. */
  datatype JwtError =
    | Malformed      // MalformedJwtException
    | Expired        // ExpiredJwtException
    | Unsupported    // UnsupportedJwtException
    | EmptyToken     // IllegalArgumentException: null or empty token text
    | OtherJwtError  // any other JwtException, such as a signature mismatch

  /** JJWT with the process-wide key: signing, and verifying-parsing at the instant `now`. */
  datatype Codec = Codec(sign: Claims -> string, parse: (string, int) -> Result<Claims, JwtError>)

  /** A call that either returns or lets an exception escape to its caller. */
  datatype Attempt<+T> = Returned(value: T) | Threw(error: JwtError)

  /** `app.jwt.expiration`, an `int` number of milliseconds. */
  datatype Config = Config(expirationMs: Int32)

  const DefaultExpirationMs: Int32 := 86_400_000

  const DefaultConfig: Config := Config(DefaultExpirationMs)

  /** What `generateJwtToken(Authentication)` signs: subject, issued-at and expiry, no roles claim. */
  function AuthenticationClaims(username: string, now: int, cfg: Config): (c: Claims)
    ensures c.roles.None?
    ensures c.subject == Some(username) && c.issuedAt == now
    ensures c.expiration == Some(now + cfg.expirationMs)
  {
    Claims(Some(username), None, now, Some(now + cfg.expirationMs))
  }

  /** What `generateJwtToken(username, roles)` signs: the same claims plus "roles". */
  function RolesClaims(username: string, roles: string, now: int, cfg: Config): (c: Claims)
    ensures c.roles == Some(roles)
    ensures c.subject == Some(username) && c.issuedAt == now
    ensures c.expiration == Some(now + cfg.expirationMs)
  {
    Claims(Some(username), Some(roles), now, Some(now + cfg.expirationMs))
  }

  function GenerateForAuthentication(codec: Codec, username: string, now: int, cfg: Config): string
  {
    codec.sign(AuthenticationClaims(username, now, cfg))
  }

  function GenerateWithRoles(codec: Codec, username: string, roles: string, now: int, cfg: Config): string
  {
    codec.sign(RolesClaims(username, roles, now, cfg))
  }

  /** The two overloads sign the same subject, issue time and expiry; only the roles claim tells them apart. */
  lemma OverloadsDifferOnlyInRoles(username: string, roles: string, now: int, cfg: Config)
    ensures RolesClaims(username, roles, now, cfg) == AuthenticationClaims(username, now, cfg).(roles := Some(roles))
    ensures AuthenticationClaims(username, now, cfg).expiration == Some(now + cfg.expirationMs)
  {
  }

  /** `validateJwtToken`: every exception the parser raises is caught and reported as false. */
  function ValidateJwtToken(codec: Codec, token: string, now: int): (valid: bool)
    ensures valid <==> codec.parse(token, now).Ok?
  {
    match codec.parse(token, now)
    case Ok(_) => true
    case Err(Malformed) => false
    case Err(Expired) => false
    case Err(Unsupported) => false
    case Err(EmptyToken) => false
    case Err(OtherJwtError) => false
  }

  /**
   * The parse shared by the three extractors, with their `catch (JwtException e)`:
   * JwtExceptions become null, while the IllegalArgumentException of an empty
   * token is not a JwtException and escapes.
   */
  function ParseForExtraction(codec: Codec, token: string, now: int): (r: Attempt<Option<Claims>>)
    ensures r.Threw? <==> codec.parse(token, now) == Err(EmptyToken)
    ensures r == Returned(None) <==> codec.parse(token, now).Err? && codec.parse(token, now).error != EmptyToken
    ensures ValidateJwtToken(codec, token, now) ==> r == Returned(Some(codec.parse(token, now).value))
  {
    match codec.parse(token, now)
    case Ok(c) => Returned(Some(c))
    case Err(EmptyToken) => Threw(EmptyToken)
    case Err(_) => Returned(None)
  }

  /** `getUsernameFromJwtToken`. */
  function GetUsername(codec: Codec, token: string, now: int): (r: Attempt<Option<string>>)
    ensures r.Threw? <==> codec.parse(token, now) == Err(EmptyToken)
    ensures codec.parse(token, now).Ok? ==> r == Returned(codec.parse(token, now).value.subject)
    ensures codec.parse(token, now).Err? && codec.parse(token, now).error != EmptyToken ==> r == Returned(None)
  {
    match ParseForExtraction(codec, token, now)
    case Threw(e) => Threw(e)
    case Returned(None) => Returned(None)
    case Returned(Some(c)) => Returned(c.subject)
  }

  /** `getRolesFromJwtToken`. */
  function GetRoles(codec: Codec, token: string, now: int): (r: Attempt<Option<string>>)
    ensures r.Threw? <==> codec.parse(token, now) == Err(EmptyToken)
    ensures codec.parse(token, now).Ok? ==> r == Returned(codec.parse(token, now).value.roles)
    ensures codec.parse(token, now).Err? && codec.parse(token, now).error != EmptyToken ==> r == Returned(None)
  {
    match ParseForExtraction(codec, token, now)
    case Threw(e) => Threw(e)
    case Returned(None) => Returned(None)
    case Returned(Some(c)) => Returned(c.roles)
  }

  /** `getExpirationDateFromJwtToken`. */
  function GetExpiration(codec: Codec, token: string, now: int): (r: Attempt<Option<int>>)
    ensures r.Threw? <==> codec.parse(token, now) == Err(EmptyToken)
    ensures codec.parse(token, now).Ok? ==> r == Returned(codec.parse(token, now).value.expiration)
    ensures codec.parse(token, now).Err? && codec.parse(token, now).error != EmptyToken ==> r == Returned(None)
  {
    match ParseForExtraction(codec, token, now)
    case Threw(e) => Threw(e)
    case Returned(None) => Returned(None)
    case Returned(Some(c)) => Returned(c.expiration)
  }

  /** `getTokenRemainingTime`: milliseconds until expiry, never negative, 0 when no expiry can be read. */
  function GetTokenRemainingTime(codec: Codec, token: string, now: int): (r: Attempt<int>)
    ensures r.Returned? ==> r.value >= 0
    ensures r.Threw? <==> codec.parse(token, now) == Err(EmptyToken)
    ensures codec.parse(token, now).Ok? && codec.parse(token, now).value.expiration.Some? ==>
      var exp := codec.parse(token, now).value.expiration.value;
      r == Returned(if exp > now then exp - now else 0)
    ensures codec.parse(token, now).Ok? && codec.parse(token, now).value.expiration.None? ==> r == Returned(0)
    ensures codec.parse(token, now).Err? && codec.parse(token, now).error != EmptyToken ==> r == Returned(0)
  {
    match GetExpiration(codec, token, now)
    case Threw(e) => Threw(e)
    case Returned(None) => Returned(0)
    case Returned(Some(exp)) => Returned(Max(0, exp - now))
  }

  function Max(a: int, b: int): int
  {
    if a >= b then a else b
  }

  /**
   * JJWT writes iat and exp as whole seconds, `getTime() / 1000` with Java's
   * truncation toward zero, and reads them back times 1000: the instant a
   * token holds is cut to the second.
   */
  function WholeSecond(ms: int): (r: int)
    ensures r % 1000 == 0
    ensures ms >= 0 ==> 0 <= r <= ms < r + 1000
    ensures ms < 0 ==> r - 1000 < ms <= r <= 0
  {
    var q := if ms >= 0 then ms / 1000 else (-ms) / 1000;
    assert 0 <= (if ms >= 0 then ms else -ms) - q * 1000 < 1000 by {
      DivisionRemainder(if ms >= 0 then ms else -ms, q);
    }
    WholeThousands(q);
    if ms >= 0 then q * 1000 else -(q * 1000)
  }

  lemma DivisionRemainder(a: nat, q: int)
    requires q == a / 1000
    ensures 0 <= a - q * 1000 < 1000
  {
    assert a == q * 1000 + a % 1000;
  }

  lemma WholeThousands(q: int)
    ensures (q * 1000) % 1000 == 0 && (-(q * 1000)) % 1000 == 0
  {
    assert (q * 1000) / 1000 == q;
    assert (-(q * 1000)) / 1000 == -q;
  }

  /** Cutting to the second is idempotent: a stored instant is stored unchanged. */
  lemma WholeSecondIdempotent(ms: int)
    ensures WholeSecond(WholeSecond(ms)) == WholeSecond(ms)
    ensures WholeSecond(ms) == ms <==> ms % 1000 == 0
  {
    var r := WholeSecond(ms);
    if ms < 0 {
      assert -r == (-ms) / 1000 * 1000;
      assert (-r) / 1000 == (-ms) / 1000;
    } else {
      assert r / 1000 == ms / 1000;
    }
  }

  /** The claims as a signed token holds them: the instants cut to the second. */
  function Stored(c: Claims): (s: Claims)
  {
    c.(issuedAt := WholeSecond(c.issuedAt),
       expiration := if c.expiration.Some? then Some(WholeSecond(c.expiration.value)) else None)
  }

  /**
   * JJWT reading back, at instant `now`, a token it signed with the same key:
   * the stored claims, unless `now` is after the stored expiry, which is an
   * ExpiredJwtException.
   */
  predicate ReadsBack(codec: Codec, c: Claims, now: int)
  {
    codec.parse(codec.sign(c), now) ==
      if c.expiration.Some? && now > WholeSecond(c.expiration.value) then Err(Expired) else Ok(Stored(c))
  }

  /** A token issued at `now` is unexpired at `now`: its expiry, cut to the second, is not before that instant. */
  predicate FreshAtIssue(now: int, cfg: Config)
  {
    now <= WholeSecond(now + cfg.expirationMs)
  }

  /** Read back at its issue instant, a token gives its subject and roles unchanged, or is already expired. */
  lemma ReadBackAtIssue(codec: Codec, c: Claims, now: int, cfg: Config)
    requires ReadsBack(codec, c, now)
    requires c.expiration == Some(now + cfg.expirationMs)
    ensures codec.parse(codec.sign(c), now) == if FreshAtIssue(now, cfg) then Ok(Stored(c)) else Err(Expired)
    ensures Stored(c).subject == c.subject && Stored(c).roles == c.roles
  {
  }

  /**
   * Read back at its own issue instant, a token has the configured lifetime
   * left as far as whole seconds allow: the expiry is cut to the second, so
   * up to 999 ms are lost, and a lifetime under a second can leave the token
   * expired at once (then 0 is reported).
   */
  lemma RemainingTimeAtIssue(codec: Codec, username: string, roles: string, now: int, cfg: Config)
    requires ReadsBack(codec, RolesClaims(username, roles, now, cfg), now)
    ensures var token := GenerateWithRoles(codec, username, roles, now, cfg);
      && GetTokenRemainingTime(codec, token, now) == Returned(Max(0, WholeSecond(now + cfg.expirationMs) - now))
      && (ValidateJwtToken(codec, token, now) <==> FreshAtIssue(now, cfg))
    ensures now >= 0 && cfg.expirationMs >= 1000 ==> FreshAtIssue(now, cfg)
    ensures now >= 0 && cfg.expirationMs >= 1000 ==>
      var left := GetTokenRemainingTime(codec, GenerateWithRoles(codec, username, roles, now, cfg), now).value;
      cfg.expirationMs - 1000 < left <= cfg.expirationMs
  {
  }
}
