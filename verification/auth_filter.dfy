/**
 * JwtAuthenticationFilter: the per-request authentication decision. The
 * filter either attaches a principal (name plus ordered authority list) to the
 * request or leaves it unauthenticated; it never rejects a request itself.
 * The security context is the returned `Option<Principal>`.
 */
module AuthFilter {
  import opened Basics
  import opened Jwt

  /** The authentication the filter stores: username and authorities, in order. */
  datatype Principal = Principal(username: string, authorities: seq<string>)

  const BearerPrefix: string := "Bearer "

  const RolePrefix: string := "ROLE_"

  /** The single authority of a token without (usable) roles. */
  const DefaultAuthority: string := "ROLE_USER"

  /** `shouldNotFilter`: paths the filter skips. */
  predicate ShouldNotFilter(path: string)
  {
    || StartsWith(path, "/api/v1/auth/")
    || path == "/api/v1/clients/health"
    || StartsWith(path, "/v3/api-docs")
    || StartsWith(path, "/swagger-ui")
    || StartsWith(path, "/actuator")
  }

  lemma BearerHeaderHasText(h: string)
    ensures StartsWith(h, BearerPrefix) ==> HasText(h)
  {
    if StartsWith(h, BearerPrefix) {
      assert h[0] == BearerPrefix[0] == 'B';
      assert !IsJavaWhitespace(h[0]);
    }
  }

  /**
   * `parseJwt`: the token is what follows a case-sensitive "Bearer " prefix.
   * The `hasText` test is implied by the prefix test.
   */
  function ParseJwt(header: Option<string>): (token: Option<string>)
    ensures token.Some? <==> header.Some? && StartsWith(header.value, BearerPrefix)
    ensures token.Some? ==> header.value == BearerPrefix + token.value
  {
    match header
    case None => None
    case Some(h) =>
      BearerHeaderHasText(h);
      if HasText(h) && StartsWith(h, BearerPrefix) then
        assert h == h[..|BearerPrefix|] + h[|BearerPrefix|..];
        Some(h[|BearerPrefix|..])
      else None
  }

  /** The `ROLE_` normalisation of one trimmed, non-empty role name. */
  function Authority(role: string): (a: string)
    ensures StartsWith(a, RolePrefix)
    ensures StartsWith(role, RolePrefix) ==> a == role
  {
    if StartsWith(role, RolePrefix) then role
    else
      StartsWithConcat(RolePrefix, role);
      RolePrefix + role
  }

  /** `.map(String::trim)` */
  function TrimAll(parts: seq<string>): (r: seq<string>)
    ensures |r| == |parts|
    ensures forall i :: 0 <= i < |r| ==> r[i] == Trim(parts[i])
  {
    seq(|parts|, i requires 0 <= i < |parts| => Trim(parts[i]))
  }

  /** `.filter(role -> !role.isEmpty())` */
  function DropEmpty(parts: seq<string>): (r: seq<string>)
    ensures forall x :: x in r <==> x in parts && x != []
    ensures |r| == |parts| - multiset(parts)[[]]
  {
    if parts == [] then []
    else
      assert parts == [parts[0]] + parts[1..];
      if parts[0] == [] then DropEmpty(parts[1..]) else [parts[0]] + DropEmpty(parts[1..])
  }

  /** The filter keeps order: filtering a concatenation filters each half. */
  lemma {:induction false} DropEmptyConcat(a: seq<string>, b: seq<string>)
    ensures DropEmpty(a + b) == DropEmpty(a) + DropEmpty(b)
    decreases |a|
  {
    var ab := a + b;
    if a == [] {
      assert ab == b;
    } else {
      assert ab[0] == a[0] && ab[1..] == a[1..] + b;
      DropEmptyConcat(a[1..], b);
      if a[0] == [] {
        assert DropEmpty(ab) == DropEmpty(a[1..] + b);
      } else {
        assert DropEmpty(ab) == [a[0]] + DropEmpty(a[1..] + b);
      }
    }
  }

  /** Nothing survives the filter exactly when every part is empty. */
  lemma DropEmptyNothingLeft(parts: seq<string>)
    ensures DropEmpty(parts) == [] <==> forall i :: 0 <= i < |parts| ==> parts[i] == []
  {
    if DropEmpty(parts) != [] {
      assert DropEmpty(parts)[0] in DropEmpty(parts);
    }
  }

  lemma {:induction false} TrimAllConcat(a: seq<string>, b: seq<string>)
    ensures TrimAll(a + b) == TrimAll(a) + TrimAll(b)
  {
    var whole, left, right := TrimAll(a + b), TrimAll(a), TrimAll(b);
    assert |whole| == |left + right|;
    forall i | 0 <= i < |whole|
      ensures whole[i] == (left + right)[i]
    {
      if i < |a| {
        assert whole[i] == Trim(a[i]) == left[i];
      } else {
        assert whole[i] == Trim(b[i - |a|]) == right[i - |a|];
      }
    }
    assert whole == left + right;
  }

  /**
   * Java's `split` drops trailing empty fields before the trim and the
   * filter; the filter would drop them anyway, so the fields are those of
   * the plain split.
   */
  lemma TrailingEmptiesInvisible(roles: string)
    ensures DropEmpty(TrimAll(JavaSplit(roles, ','))) == DropEmpty(TrimAll(Split(roles, ',')))
  {
    if ',' !in roles {
      SplitNoSeparator(roles, ',');
    } else {
      DropTrailingEmptyInvisible(Split(roles, ','));
    }
  }

  lemma {:induction false} DropTrailingEmptyInvisible(parts: seq<string>)
    ensures DropEmpty(TrimAll(DropTrailingEmpty(parts))) == DropEmpty(TrimAll(parts))
    decreases |parts|
  {
    if parts != [] && parts[|parts| - 1] == [] {
      var init := parts[..|parts| - 1];
      assert parts == init + [[]];
      DropTrailingEmptyInvisible(init);
      TrailingEmptyDropped(init);
    }
  }

  /** An empty last part contributes nothing to the trimmed, filtered parts. */
  lemma TrailingEmptyDropped(init: seq<string>)
    ensures DropEmpty(TrimAll(init + [[]])) == DropEmpty(TrimAll(init))
  {
    var empty: seq<string> := [[]];
    assert DropEmpty(TrimAll(empty)) == [] by {
      assert TrimAll(empty) == empty;
      assert empty[1..] == [];
    }
    TrimAllConcat(init, empty);
    DropEmptyConcat(TrimAll(init), TrimAll(empty));
  }

  /**
   * `split(",")`, then `.map(String::trim)`, then `.filter(role -> !role.isEmpty())`:
   * the non-empty trimmed comma-separated segments, in order.
   */
  function Fields(roles: string): (fields: seq<string>)
    ensures forall i :: 0 <= i < |fields| ==> fields[i] != [] && IsTrimmed(fields[i]) && ',' !in fields[i]
  {
    TrimmedFieldsClean(roles);
    DropEmptyKeepsClean(TrimAll(Split(roles, ',')));
    DropEmpty(TrimAll(Split(roles, ',')))
  }

  /** Fields split at a comma: the fields of the text are those of each side, in order. */
  lemma FieldsConcat(a: string, b: string)
    ensures Fields(a + [','] + b) == Fields(a) + Fields(b)
  {
    SplitConcat(a, b, ',');
    TrimAllConcat(Split(a, ','), Split(b, ','));
    DropEmptyConcat(TrimAll(Split(a, ',')), TrimAll(Split(b, ',')));
  }

  /** A comma-free text is one field: its trim, or none when it is blank. */
  lemma FieldsSingle(s: string)
    requires ',' !in s
    ensures Fields(s) == if IsBlank(s) then [] else [Trim(s)]
  {
    SplitNoSeparator(s, ',');
    var t := TrimAll([s]);
    assert t == [Trim(s)];
    assert t[1..] == [];
    assert DropEmpty(t[1..]) == [];
  }

  /** No field survives exactly when every comma-separated segment is blank. */
  lemma FieldsEmptyIff(s: string)
    ensures Fields(s) == [] <==> forall j :: 0 <= j < |Split(s, ',')| ==> IsBlank(Split(s, ',')[j])
  {
    var fields := Fields(s);
    assert fields == DropEmpty(TrimAll(Split(s, ',')));
    DropEmptyNothingLeft(TrimAll(Split(s, ',')));
    TrimAllBlank(Split(s, ','));
  }

  lemma TrimAllBlank(parts: seq<string>)
    ensures (forall i :: 0 <= i < |TrimAll(parts)| ==> TrimAll(parts)[i] == []) <==> (forall j :: 0 <= j < |parts| ==> IsBlank(parts[j]))
  {
    var t := TrimAll(parts);
    if forall i :: 0 <= i < |t| ==> t[i] == [] {
      forall j | 0 <= j < |parts|
        ensures IsBlank(parts[j])
      {
        assert t[j] == Trim(parts[j]);
      }
    }
    if forall j :: 0 <= j < |parts| ==> IsBlank(parts[j]) {
      forall i | 0 <= i < |t|
        ensures t[i] == []
      {
        assert IsBlank(parts[i]);
      }
    }
  }

  lemma DropEmptyKeepsClean(parts: seq<string>)
    requires forall j :: 0 <= j < |parts| ==> IsTrimmed(parts[j]) && ',' !in parts[j]
    ensures forall i :: 0 <= i < |DropEmpty(parts)| ==> DropEmpty(parts)[i] != [] && IsTrimmed(DropEmpty(parts)[i]) && ',' !in DropEmpty(parts)[i]
  {
    var fields := DropEmpty(parts);
    forall i | 0 <= i < |fields|
      ensures fields[i] != [] && IsTrimmed(fields[i]) && ',' !in fields[i]
    {
      assert fields[i] in fields;
      var j :| 0 <= j < |parts| && parts[j] == fields[i];
    }
  }

  lemma TrimmedFieldsClean(roles: string)
    ensures forall j :: 0 <= j < |TrimAll(Split(roles, ','))| ==>
      IsTrimmed(TrimAll(Split(roles, ','))[j]) && ',' !in TrimAll(Split(roles, ','))[j]
  {
    var split := Split(roles, ',');
    var trimmed := TrimAll(split);
    forall j | 0 <= j < |trimmed|
      ensures IsTrimmed(trimmed[j]) && ',' !in trimmed[j]
    {
      assert ',' !in split[j];
      TrimKeepsAbsent(split[j], ',');
    }
  }

  /** `.map(role -> startsWith("ROLE_") ? role : "ROLE_" + role)` */
  function MapAuthority(parts: seq<string>): (r: seq<string>)
    ensures |r| == |parts|
    ensures forall i :: 0 <= i < |r| ==> r[i] == Authority(parts[i])
  {
    seq(|parts|, i requires 0 <= i < |parts| => Authority(parts[i]))
  }

  /**
   * `parseAuthorities`: a null or blank roles claim gives the default
   * authority; otherwise one authority per non-blank comma-separated segment,
   * trimmed and `ROLE_`-normalised, in order, without case change or
   * de-duplication.
   */
  function ParseAuthorities(roles: Option<string>): (auths: seq<string>)
    ensures roles.None? || IsBlank(roles.value) ==> auths == [DefaultAuthority]
    ensures forall i :: 0 <= i < |auths| ==> StartsWith(auths[i], RolePrefix)
    ensures roles.Some? && !IsBlank(roles.value) ==> |auths| <= |Split(roles.value, ',')|
  {
    if roles.None? || IsBlank(roles.value) then
      assert StartsWith(DefaultAuthority, RolePrefix);
      [DefaultAuthority]
    else
      MapAuthority(Fields(roles.value))
  }

  /**
   * A non-blank claim yields as many authorities as it has non-blank
   * segments, and none exactly when every segment is blank.
   */
  lemma AuthorityCount(roles: string)
    requires !IsBlank(roles)
    ensures var segments := Split(roles, ',');
      && |ParseAuthorities(Some(roles))| == |segments| - multiset(TrimAll(segments))[[]]
      && (ParseAuthorities(Some(roles)) == [] <==> forall j :: 0 <= j < |segments| ==> IsBlank(segments[j]))
  {
    var fields := Fields(roles);
    assert fields == DropEmpty(TrimAll(Split(roles, ',')));
    assert ParseAuthorities(Some(roles)) == MapAuthority(fields);
    FieldsEmptyIff(roles);
  }

  lemma MapAuthorityConcat(a: seq<string>, b: seq<string>)
    ensures MapAuthority(a + b) == MapAuthority(a) + MapAuthority(b)
  {
    assert forall i :: 0 <= i < |a + b| ==> MapAuthority(a + b)[i] == (MapAuthority(a) + MapAuthority(b))[i];
  }

  /** A comma is not blank, so no text containing one is. */
  lemma CommaNotBlank(a: string, b: string)
    ensures !IsBlank(a + [','] + b)
  {
    var s := a + [','] + b;
    assert s[|a|] == ',';
    BlankIffAllSpace(s);
  }

  /** A non-blank comma-free claim is one role: its trim, normalised. */
  lemma ParseSingleRole(s: string)
    requires ',' !in s && !IsBlank(s)
    ensures ParseAuthorities(Some(s)) == [Authority(Trim(s))]
  {
    FieldsSingle(s);
  }

  /**
   * Order is kept across a comma: the authorities of `a,b` are those of `a`
   * followed by those of `b`, where a blank side contributes nothing (not
   * the default authority).
   */
  lemma {:induction false} ParseAcrossComma(a: string, b: string)
    ensures var both := ParseAuthorities(Some(a + [','] + b));
      && (!IsBlank(a) && !IsBlank(b) ==> both == ParseAuthorities(Some(a)) + ParseAuthorities(Some(b)))
      && (!IsBlank(a) && IsBlank(b) ==> both == ParseAuthorities(Some(a)))
      && (IsBlank(a) && !IsBlank(b) ==> both == ParseAuthorities(Some(b)))
      && (IsBlank(a) && IsBlank(b) ==> both == [])
  {
    var both := ParseAuthorities(Some(a + [','] + b));
    CommaNotBlank(a, b);
    assert both == MapAuthority(Fields(a + [','] + b));
    FieldsConcat(a, b);
    MapAuthorityConcat(Fields(a), Fields(b));
    assert both == MapAuthority(Fields(a)) + MapAuthority(Fields(b));
    BlankFieldless(a);
    BlankFieldless(b);
  }

  /** A blank text has no field. */
  lemma BlankFieldless(s: string)
    ensures IsBlank(s) ==> Fields(s) == []
  {
    if IsBlank(s) {
      BlankIffAllSpace(s);
      assert ',' !in s by {
          forall k | 0 <= k < |s|
          ensures s[k] != ','
        {
          assert IsTrimSpace(s[k]);
        }
      }
      FieldsSingle(s);
    }
  }

  /**
   * The claim as a list of comma-free segments: one authority per segment
   * that is not blank, trimmed and normalised, in segment order.
   */
  lemma {:induction false} ParseSegments(segments: seq<string>)
    requires |segments| >= 1
    requires forall i :: 0 <= i < |segments| ==> ',' !in segments[i]
    requires !IsBlank(Join(segments, ','))
    ensures ParseAuthorities(Some(Join(segments, ','))) == MapAuthority(DropEmpty(TrimAll(segments)))
  {
    var roles := Join(segments, ',');
    SplitJoin(segments, ',');
    assert Split(roles, ',') == segments;
    assert Fields(roles) == DropEmpty(TrimAll(segments));
    assert ParseAuthorities(Some(roles)) == MapAuthority(Fields(roles));
  }

  lemma {:induction false} DropEmptyKeepsNonEmpty(parts: seq<string>)
    requires forall i :: 0 <= i < |parts| ==> parts[i] != []
    ensures DropEmpty(parts) == parts
    decreases |parts|
  {
    if parts != [] {
      DropEmptyKeepsNonEmpty(parts[1..]);
      assert [parts[0]] + parts[1..] == parts;
    }
  }

  /** A join whose first field is trimmed and non-empty is not blank. */
  lemma JoinNotBlank(parts: seq<string>, sep: char)
    requires |parts| >= 1 && parts[0] != [] && IsTrimmed(parts[0])
    ensures !IsBlank(Join(parts, sep))
  {
    var s := Join(parts, sep);
    assert s[0] == parts[0][0];
    BlankIffAllSpace(s);
  }

  lemma TrimAllKeepsTrimmed(parts: seq<string>)
    requires forall i :: 0 <= i < |parts| ==> IsTrimmed(parts[i])
    ensures TrimAll(parts) == parts
  {
    var trimmed := TrimAll(parts);
    forall i | 0 <= i < |parts|
      ensures trimmed[i] == parts[i]
    {
      assert Trim(parts[i]) == parts[i];
    }
  }

  /** Role names that are already trimmed, non-empty and comma-free come back one authority each, in order. */
  lemma {:induction false} ParseJoinedRoles(parts: seq<string>)
    requires |parts| >= 1
    requires forall i :: 0 <= i < |parts| ==> parts[i] != [] && IsTrimmed(parts[i]) && ',' !in parts[i]
    ensures ParseAuthorities(Some(Join(parts, ','))) == MapAuthority(parts)
  {
    JoinNotBlank(parts, ',');
    ParseSegments(parts);
    TrimAllKeepsTrimmed(parts);
    DropEmptyKeepsNonEmpty(parts);
  }

  /**
   * A clean role named twice, such as "admin,admin", yields its `ROLE_`
   * authority twice: no upper-casing, no de-duplication.
   */
  lemma NoCaseChangeNoDeduplication(r: string)
    requires r != [] && IsTrimmed(r) && ',' !in r && !StartsWith(r, RolePrefix)
    ensures ParseAuthorities(Some(r + [','] + r)) == [RolePrefix + r, RolePrefix + r]
  {
    TwoCleanRoles(r, r);
  }

  /** Two clean role names around one comma give their two authorities, in order. */
  lemma TwoCleanRoles(a: string, b: string)
    requires a != [] && IsTrimmed(a) && ',' !in a
    requires b != [] && IsTrimmed(b) && ',' !in b
    ensures ParseAuthorities(Some(a + [','] + b)) == [Authority(a), Authority(b)]
  {
    assert !IsBlank(a) && !IsBlank(b);
    ParseAcrossComma(a, b);
    ParseSingleRole(a);
    ParseSingleRole(b);
  }

  /** The administrator role list yields both authorities, in order. */
  lemma UserAdminAuthorities()
    ensures ParseAuthorities(Some("USER,ADMIN")) == ["ROLE_USER", "ROLE_ADMIN"]
  {
    UserAdminRoles();
    TwoCleanRoles("USER", "ADMIN");
  }

  /** "USER" and "ADMIN" are clean role names that gain the `ROLE_` prefix. */
  lemma UserAdminRoles()
    ensures "USER" + [','] + "ADMIN" == "USER,ADMIN"
    ensures IsTrimmed("USER") && ',' !in "USER" && Authority("USER") == "ROLE_USER"
    ensures IsTrimmed("ADMIN") && ',' !in "ADMIN" && Authority("ADMIN") == "ROLE_ADMIN"
  {
    LettersAreCleanRole("USER");
    LettersAreCleanRole("ADMIN");
  }

  /** A name made of ASCII letters and not starting with 'R' is a clean field that gains the `ROLE_` prefix. */
  lemma LettersAreCleanRole(r: string)
    requires r != [] && r[0] != 'R'
    requires forall k :: 0 <= k < |r| ==> 'A' <= r[k] <= 'Z' || 'a' <= r[k] <= 'z'
    ensures IsTrimmed(r) && ',' !in r
    ensures Authority(r) == RolePrefix + r
  {
    assert !StartsWith(r, RolePrefix) by {
      if |RolePrefix| <= |r| {
        assert r[..|RolePrefix|][0] != RolePrefix[0];
      }
    }
  }

  /** A non-blank claim with no non-empty field, here ",", yields no authority at all. */
  lemma SeparatorsOnlyYieldNoAuthority()
    ensures ParseAuthorities(Some(",")) == []
  {
    assert !IsBlank(",") by {
      assert !IsTrimSpace(","[0]);
      BlankIffAllSpace(",");
    }
    assert Split(",", ',') == [[], []] by {
      assert ","[1..] == [];
    }
    assert TrimAll([[], []]) == [[], []];
    assert Fields(",") == [];
  }

  /** A clean field keeps its shape under `ROLE_` normalisation, and normalising twice changes nothing. */
  lemma AuthorityClean(f: string)
    requires f != [] && IsTrimmed(f) && ',' !in f
    ensures Authority(f) != [] && IsTrimmed(Authority(f)) && ',' !in Authority(f)
    ensures Authority(Authority(f)) == Authority(f)
  {
    if !StartsWith(f, RolePrefix) {
      var a := RolePrefix + f;
      assert a[|a| - 1] == f[|f| - 1];
      assert a[0] == 'R';
    }
  }

  /** The authority text the filter attaches is a fixed point: re-reading its comma join gives it back. */
  lemma AuthoritiesReparse(roles: string)
    requires !IsBlank(roles)
    requires |ParseAuthorities(Some(roles))| >= 1
    ensures ParseAuthorities(Some(Join(ParseAuthorities(Some(roles)), ','))) == ParseAuthorities(Some(roles))
  {
    var fields := Fields(roles);
    var auths := ParseAuthorities(Some(roles));
    assert auths == MapAuthority(fields);
    forall i | 0 <= i < |auths|
      ensures auths[i] != [] && IsTrimmed(auths[i]) && ',' !in auths[i]
      ensures Authority(auths[i]) == auths[i]
    {
      AuthorityClean(fields[i]);
    }
    ParseJoinedRoles(auths);
    assert MapAuthority(auths) == auths;
  }

  /**
   * `doFilterInternal` after the bypass test: a principal is attached only
   * when a bearer token is present, it validates, and it has a subject. The
   * `catch (Exception e)` turns any exception of the extractors into "no
   * principal"; the chain then continues in every case.
   */
  function DoFilterInternal(codec: Codec, header: Option<string>, now: int): (p: Option<Principal>)
    ensures p.Some? <==>
      && ParseJwt(header).Some?
      && codec.parse(ParseJwt(header).value, now).Ok?
      && codec.parse(ParseJwt(header).value, now).value.subject.Some?
    ensures p.Some? ==>
      var claims := codec.parse(ParseJwt(header).value, now).value;
      p.value == Principal(claims.subject.value, ParseAuthorities(claims.roles))
  {
    match ParseJwt(header)
    case None => None
    case Some(jwt) =>
      if !ValidateJwtToken(codec, jwt, now) then None
      else
        match GetUsername(codec, jwt, now)
        case Threw(_) => None
        case Returned(None) => None
        case Returned(Some(username)) =>
          match GetRoles(codec, jwt, now)
          case Threw(_) => None
          case Returned(roles) => Some(Principal(username, ParseAuthorities(roles)))
  }

  /** The filter as registered: skipped paths are never authenticated, the others get `DoFilterInternal`. */
  function Intercept(codec: Codec, path: string, header: Option<string>, now: int): (p: Option<Principal>)
    ensures ShouldNotFilter(path) ==> p.None?
    ensures p.Some? ==> ParseJwt(header).Some? && ValidateJwtToken(codec, ParseJwt(header).value, now)
    ensures !ShouldNotFilter(path) ==> p == DoFilterInternal(codec, header, now)
  {
    if ShouldNotFilter(path) then None else DoFilterInternal(codec, header, now)
  }
}
