/** The authentication middlewares: `authenticate` takes the bearer token from
    the `Authorization` header, verifies it and loads the requester's profile;
    `authorize(roles)` admits a request only for the listed roles. The token
    verifier is a parameter: a partial function from token to its claims. */
module Auth {
  import opened Wrappers
  import opened Http
  import opened Schema

  /** What a verified token carries. */
  datatype Claims = Claims(id: ProfileId, email: string, role: string)

  /** `s.split(sep)`: the pieces between separators, empty pieces included. */
  function Split(s: string, sep: char): (parts: seq<string>)
    ensures |parts| >= 1
    ensures forall i :: 0 <= i < |parts| ==> sep !in parts[i]
    ensures Join(parts, sep) == s
  {
    if s == [] then [""]
    else
      var rest := Split(s[1..], sep);
      if s[0] == sep then
        assert [sep] + Join(rest, sep) == s;
        [""] + rest
      else
        assert Join([[s[0]] + rest[0]] + rest[1..], sep) == [s[0]] + Join(rest, sep);
        [[s[0]] + rest[0]] + rest[1..]
  }

  /** The pieces put back together with `sep` between them. */
  function Join(parts: seq<string>, sep: char): string
    requires |parts| >= 1
  {
    if |parts| == 1 then parts[0] else parts[0] + [sep] + Join(parts[1..], sep)
  }

  /** `authorization?.split(" ")[1]`, kept only when truthy (non-empty).
      With `NoSpaceNoToken`, `BearerTokenExtracted` and
      `EmptySecondWordNoToken` below, every header is covered: one without
      a space, one whose second word is empty, and one whose second word is
      the token. */
  function ExtractToken(header: Option<string>): (token: Option<string>)
    ensures header.None? ==> token.None?
    ensures token.Some? ==> token.value != [] && ' ' !in token.value
  {
    match header
    case None => None
    case Some(h) =>
      var parts := Split(h, ' ');
      if |parts| >= 2 && parts[1] != "" then Some(parts[1]) else None
  }

  lemma {:induction false} SplitWithoutSeparator(s: string, sep: char)
    requires sep !in s
    ensures Split(s, sep) == [s]
  {
    if s != [] {
      SplitWithoutSeparator(s[1..], sep);
    }
  }

  lemma {:induction false} SplitAfterWord(w: string, sep: char, rest: string)
    requires sep !in w
    ensures Split(w + [sep] + rest, sep) == [w] + Split(rest, sep)
  {
    var s := w + [sep] + rest;
    if w != [] {
      assert s[0] == w[0] && s[0] != sep;
      assert s[1..] == w[1..] + [sep] + rest;
      SplitAfterWord(w[1..], sep, rest);
      var tail := Split(s[1..], sep);
      assert tail[0] == w[1..] && tail[1..] == Split(rest, sep);
      assert [s[0]] + tail[0] == w;
    } else {
      assert s[1..] == rest;
    }
  }

  /** `Authorization: <scheme> <token>` yields the token, whatever the
      scheme word is and whatever follows a further space. */
  lemma BearerTokenExtracted(scheme: string, token: string, tail: string)
    requires ' ' !in scheme && ' ' !in token && token != ""
    requires tail == "" || tail[0] == ' '
    ensures ExtractToken(Some(scheme + " " + token + tail)) == Some(token)
  {
    assert scheme + " " + token + tail == scheme + [' '] + (token + tail);
    SplitAfterWord(scheme, ' ', token + tail);
    if tail == "" {
      assert token + tail == token;
      SplitWithoutSeparator(token, ' ');
    } else {
      assert token + tail == token + [' '] + tail[1..];
      SplitAfterWord(token, ' ', tail[1..]);
    }
  }

  /** A header whose first space is followed by another space or by
      nothing (`"Bearer "`, `"Bearer  t"`) carries no token. */
  lemma EmptySecondWordNoToken(scheme: string, rest: string)
    requires ' ' !in scheme
    requires rest == "" || rest[0] == ' '
    ensures ExtractToken(Some(scheme + " " + rest)) == None
  {
    assert scheme + " " + rest == scheme + [' '] + rest;
    SplitAfterWord(scheme, ' ', rest);
    if rest != "" {
      assert rest == [] + [' '] + rest[1..];
      SplitAfterWord([], ' ', rest[1..]);
    }
  }

  /** A header without a space carries no token. */
  lemma NoSpaceNoToken(h: string)
    requires ' ' !in h
    ensures ExtractToken(Some(h)) == None
  {
    SplitWithoutSeparator(h, ' ');
  }

  datatype AuthOutcome = Authenticated(user: Profile) | Rejected(error: HttpError)

  const NO_TOKEN: string := "No token provided"
  const INVALID_TOKEN: string := "Invalid token"
  const NOT_AUTHORIZED: string := "Not authorized"
  const FORBIDDEN: string := "Forbidden"

  /** `authenticate`: 401 without a token, 401 "Not authorized" when the
      verifier rejects it, 401 "Invalid token" when no profile has the
      token's id; otherwise the request continues as the stored profile. */
  function Authenticate(header: Option<string>, verify: string -> Option<Claims>,
                        profiles: map<ProfileId, Profile>): (r: AuthOutcome)
    ensures ExtractToken(header).None? ==> r == Rejected(Unauthorized(NO_TOKEN))
    ensures ExtractToken(header).Some? && verify(ExtractToken(header).value).None? ==>
              r == Rejected(Unauthorized(NOT_AUTHORIZED))
    ensures ExtractToken(header).Some? && verify(ExtractToken(header).value).Some?
            && verify(ExtractToken(header).value).value.id !in profiles ==>
              r == Rejected(Unauthorized(INVALID_TOKEN))
    ensures r.Authenticated? <==>
              && ExtractToken(header).Some?
              && verify(ExtractToken(header).value).Some?
              && verify(ExtractToken(header).value).value.id in profiles
    ensures r.Authenticated? ==>
              r.user == profiles[verify(ExtractToken(header).value).value.id]
    ensures r.Rejected? ==> r.error.Code() == 401
  {
    match ExtractToken(header)
    case None => Rejected(Unauthorized(NO_TOKEN))
    case Some(token) =>
      match verify(token)
      case None => Rejected(Unauthorized(NOT_AUTHORIZED))
      case Some(claims) =>
        if claims.id in profiles then Authenticated(profiles[claims.id])
        else Rejected(Unauthorized(INVALID_TOKEN))
  }

  /** The role a request acts with comes from the profile table: two
      verifiers that agree on which tokens are valid and on their ids give
      the same outcome, whatever roles and emails the tokens claim. */
  lemma ClaimedRoleIsIgnored(header: Option<string>, v1: string -> Option<Claims>,
                             v2: string -> Option<Claims>, profiles: map<ProfileId, Profile>)
    requires forall t :: v1(t).Some? == v2(t).Some?
    requires forall t :: v1(t).Some? ==> v1(t).value.id == v2(t).value.id
    ensures Authenticate(header, v1, profiles) == Authenticate(header, v2, profiles)
  {
  }

  /** `authorize(roles)`: the request passes exactly when the requester's
      role is listed; otherwise 403 "Forbidden". */
  function Authorize(roles: seq<string>, user: Profile): (r: Option<HttpError>)
    ensures r.None? <==> user.role in roles
    ensures r.Some? ==> r.value == Forbidden(FORBIDDEN)
  {
    if user.role in roles then None else Some(Forbidden(FORBIDDEN))
  }

  /** `authorize()` with its default empty list admits nobody. */
  lemma DefaultRolesRejectAll(user: Profile)
    ensures Authorize([], user) == Some(Forbidden(FORBIDDEN))
  {
  }
}
