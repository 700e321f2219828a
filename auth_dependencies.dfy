/** server/src/auth/dependencies.py: the request dependencies that turn a
    login form or a bearer/cookie token into a user, or into an HTTP error.
    Token decoding is a parameter: `decode(token)` is the claim set of a
    token whose signature and expiry check out, None otherwise. */
module AuthDependencies {
  import opened Common
  import opened Store
  import opened UsersService
  import opened AuthUtils

  const InvalidToken: Error := Http(401, "Invalid authorization token")
  const BadCredentials: Error := Http(403, "Incorrect username or password")
  const MissingRefreshToken: Error := Http(403, "Missing refresh token")
  const InvalidTokenType: Error := Http(403, "Invalid token type")

  /** `authenticate_user`: an unknown username and a wrong password are
      refused with the same 403, so a client cannot tell them apart. */
  function AuthenticateUser(t: Tables, username: string, password: string, validate: (string, string) -> bool)
    : (r: Result<UserView>)
    requires Consistent(t)
    ensures r.Ok? <==> exists u :: u in t.users && u.username == username && validate(password, u.hashedPassword)
    ensures r.Err? ==> r.error == BadCredentials
    ensures r.Ok? ==> forall u :: u in t.users && u.username == username ==> r.value == View(u, true)
  {
    match GetUser(t, true, ByUsername(username))
    case Err(_) => Err(BadCredentials)
    case Ok(v) =>
      if !validate(password, v.hashedPassword.value) then Err(BadCredentials) else Ok(v)
  }

  /** `_get_token_payload`: a token that does not decode is a 401. */
  function TokenPayload(decoded: Option<Payload>): (r: Result<Payload>)
    ensures r.Err? <==> decoded.None?
    ensures r.Err? ==> r.error == InvalidToken
    ensures r.Ok? ==> r.value == decoded.value
  {
    match decoded
    case None => Err(InvalidToken)
    case Some(p) => Ok(p)
  }

  /** `_get_token_payload_from_header_optional` with
      `_get_token_payload_optional`: no token, an empty one or one that does
      not decode all give None. */
  function HeaderPayloadOptional(token: Option<string>, decode: string -> Option<Payload>): (r: Option<Payload>)
    ensures token.None? || token == Some("") ==> r.None?
    ensures token.Some? && token.value != "" ==> r == decode(token.value)
  {
    if token.None? || token.value == "" then None else decode(token.value)
  }

  /** `_get_token_payload_from_cookie`: a missing or empty refresh cookie is
      a 403; a cookie that does not decode is a 401. */
  function CookiePayload(cookie: Option<string>, decode: string -> Option<Payload>): (r: Result<Payload>)
    ensures cookie.None? || cookie == Some("") ==> r == Err(MissingRefreshToken)
    ensures cookie.Some? && cookie.value != "" ==> r == TokenPayload(decode(cookie.value))
  {
    if cookie.None? || cookie.value == "" then Err(MissingRefreshToken) else TokenPayload(decode(cookie.value))
  }

  /** `_check_token_type`: the "type" claim must be the expected text. */
  function CheckTokenType(p: Payload, tokenType: string): (r: Result<()>)
    ensures r.Ok? <==> TokenTypeField in p && p[TokenTypeField] == Text(tokenType)
    ensures r.Err? ==> r.error == InvalidTokenType
  {
    if TokenTypeField in p && p[TokenTypeField] == Text(tokenType) then Ok(()) else Err(InvalidTokenType)
  }

  /** No claim set is both an access token and a refresh token. */
  lemma TypeConfusionRejected(p: Payload)
    ensures !(CheckTokenType(p, AccessTokenType).Ok? && CheckTokenType(p, RefreshTokenType).Ok?)
  {
  }

  /** `user_service.get_user(user_id=payload.get("sub"))` with UserNotFound
      turned into a 401. A missing subject compares as NULL and matches no
      user; a subject that is not an id text is refused by the database. */
  function SubjectUser(t: Tables, p: Payload): (r: Result<UserView>)
    requires Consistent(t)
    ensures "sub" !in p ==> r == Err(InvalidToken)
    ensures "sub" in p && (p["sub"].Time? || ParseId(p["sub"].text).None?) ==> r == Err(DataError)
    ensures "sub" in p && p["sub"].Text? && ParseId(p["sub"].text).Some? ==>
      var id := ParseId(p["sub"].text).value;
      && (r.Ok? <==> exists u :: u in t.users && u.id == id)
      && (r.Err? ==> r.error == InvalidToken)
      && (forall u :: u in t.users && u.id == id ==> r == Ok(View(u, false)))
  {
    if "sub" !in p then Err(InvalidToken)
    else
      match p["sub"]
      case Time(_) => Err(DataError)
      case Text(s) =>
        match ParseId(s)
        case None => Err(DataError)
        case Some(id) =>
          match GetUser(t, false, ById(id))
          case Err(_) => Err(InvalidToken)
          case Ok(v) => Ok(v)
  }

  /** `get_current_user`: decode the bearer token, demand an access token,
      load its subject. */
  function GetCurrentUser(t: Tables, token: string, decode: string -> Option<Payload>): (r: Result<UserView>)
    requires Consistent(t)
    ensures decode(token).None? ==> r == Err(InvalidToken)
    ensures decode(token).Some? && CheckTokenType(decode(token).value, AccessTokenType).Err? ==> r == Err(InvalidTokenType)
    ensures r.Ok? ==> CheckTokenType(decode(token).value, AccessTokenType).Ok?
    ensures decode(token).Some? && CheckTokenType(decode(token).value, AccessTokenType).Ok? ==>
      r == SubjectUser(t, decode(token).value)
  {
    match TokenPayload(decode(token))
    case Err(e) => Err(e)
    case Ok(p) =>
      match CheckTokenType(p, AccessTokenType)
      case Err(e) => Err(e)
      case Ok(_) => SubjectUser(t, p)
  }

  /** `get_current_optional_user`: no token, an undecodable one or an empty
      claim set means nobody is logged in; a decodable token of the wrong
      type is still a 403. */
  function GetCurrentOptionalUser(t: Tables, token: Option<string>, decode: string -> Option<Payload>)
    : (r: Result<Option<UserView>>)
    requires Consistent(t)
    ensures var p := HeaderPayloadOptional(token, decode);
      && (p.None? || p.value == map[] ==> r == Ok(None))
      && (p.Some? && p.value != map[] && CheckTokenType(p.value, AccessTokenType).Err? ==> r == Err(InvalidTokenType))
      && (p.Some? && p.value != map[] && CheckTokenType(p.value, AccessTokenType).Ok? ==>
            match SubjectUser(t, p.value)
            case Ok(v) => r == Ok(Some(v))
            case Err(e) => r == Err(e))
  {
    var p := HeaderPayloadOptional(token, decode);
    if p.None? || p.value == map[] then Ok(None)
    else
      match CheckTokenType(p.value, AccessTokenType)
      case Err(e) => Err(e)
      case Ok(_) =>
        match SubjectUser(t, p.value)
        case Ok(v) => Ok(Some(v))
        case Err(e) => Err(e)
  }

  /** `get_current_user_for_refresh`: the refresh cookie, which must be a
      refresh token. */
  function GetCurrentUserForRefresh(t: Tables, cookie: Option<string>, decode: string -> Option<Payload>)
    : (r: Result<UserView>)
    requires Consistent(t)
    ensures CookiePayload(cookie, decode).Err? ==> r == Err(CookiePayload(cookie, decode).error)
    ensures CookiePayload(cookie, decode).Ok? && CheckTokenType(CookiePayload(cookie, decode).value, RefreshTokenType).Err?
      ==> r == Err(InvalidTokenType)
    ensures r.Ok? ==> CheckTokenType(CookiePayload(cookie, decode).value, RefreshTokenType).Ok?
    ensures CookiePayload(cookie, decode).Ok? && CheckTokenType(CookiePayload(cookie, decode).value, RefreshTokenType).Ok?
      ==> r == SubjectUser(t, CookiePayload(cookie, decode).value)
  {
    match CookiePayload(cookie, decode)
    case Err(e) => Err(e)
    case Ok(p) =>
      match CheckTokenType(p, RefreshTokenType)
      case Err(e) => Err(e)
      case Ok(_) => SubjectUser(t, p)
  }

  /** The subject claim written for a stored user resolves to that user. */
  lemma SubjectIsUser(t: Tables, u: User, p: Payload)
    requires Consistent(t) && u in t.users
    requires "sub" in p && p["sub"] == Text(IdText(u.id))
    ensures SubjectUser(t, p) == Ok(View(u, false))
  {
    ParseIdText(u.id);
  }

/** An access token issued to a user logs that user in on the bearer
      paths and is refused on the refresh path. */
  lemma AccessTokenRoundTrip(t: Tables, u: User, now: int, token: string, decode: string -> Option<Payload>)
    requires Consistent(t) && u in t.users && token != ""
    requires decode(token) == Some(AccessClaims(u.id, u.username, now))
    ensures GetCurrentUser(t, token, decode) == Ok(View(u, false))
    ensures GetCurrentOptionalUser(t, Some(token), decode) == Ok(Some(View(u, false)))
    ensures GetCurrentUserForRefresh(t, Some(token), decode) == Err(InvalidTokenType)
  {
    var p := AccessClaims(u.id, u.username, now);
    SubjectIsUser(t, u, p);
    assert CheckTokenType(p, AccessTokenType) == Ok(());
    assert CheckTokenType(p, RefreshTokenType).Err?;
    assert TokenPayload(decode(token)) == Ok(p);
    assert p != map[] by {
      assert TokenTypeField in p;
    }
    assert HeaderPayloadOptional(Some(token), decode) == Some(p);
    assert CookiePayload(Some(token), decode) == Ok(p);
  }

  /** A refresh token issued to a user is accepted only on the refresh path. */
  lemma RefreshTokenRoundTrip(t: Tables, u: User, now: int, token: string, decode: string -> Option<Payload>)
    requires Consistent(t) && u in t.users && token != ""
    requires decode(token) == Some(RefreshClaims(u.id, u.username, now))
    ensures GetCurrentUserForRefresh(t, Some(token), decode) == Ok(View(u, false))
    ensures GetCurrentUser(t, token, decode) == Err(InvalidTokenType)
    ensures GetCurrentOptionalUser(t, Some(token), decode) == Err(InvalidTokenType)
  {
    var p := RefreshClaims(u.id, u.username, now);
    SubjectIsUser(t, u, p);
    assert CheckTokenType(p, RefreshTokenType) == Ok(());
    assert CheckTokenType(p, AccessTokenType).Err?;
    assert TokenPayload(decode(token)) == Ok(p);
    assert p != map[] by {
      assert TokenTypeField in p;
    }
    assert HeaderPayloadOptional(Some(token), decode) == Some(p);
    assert CookiePayload(Some(token), decode) == Ok(p);
  }

  /** The same token never passes both the bearer check and the refresh
      check. */
  lemma NoTokenServesBoth(t: Tables, token: string, decode: string -> Option<Payload>)
    requires Consistent(t)
    ensures !(GetCurrentUser(t, token, decode).Ok? && GetCurrentUserForRefresh(t, Some(token), decode).Ok?)
  {
    if GetCurrentUser(t, token, decode).Ok? && GetCurrentUserForRefresh(t, Some(token), decode).Ok? {
      TypeConfusionRejected(decode(token).value);
      assert false;
    }
  }

  /** A well-typed token whose subject is no longer a user (deleted
      account) is a 401 on every path that demands a user. */
  lemma VanishedUserUnauthorized(t: Tables, id: Id, username: string, now: int, token: string,
                                 decode: string -> Option<Payload>)
    requires Consistent(t) && id !in UserIds(t.users) && token != ""
    ensures decode(token) == Some(AccessClaims(id, username, now)) ==>
      && GetCurrentUser(t, token, decode) == Err(InvalidToken)
      && GetCurrentOptionalUser(t, Some(token), decode) == Err(InvalidToken)
    ensures decode(token) == Some(RefreshClaims(id, username, now)) ==>
      GetCurrentUserForRefresh(t, Some(token), decode) == Err(InvalidToken)
  {
    ParseIdText(id);
    assert TokenTypeField in AccessClaims(id, username, now);
    assert TokenTypeField in RefreshClaims(id, username, now);
  }

  /** Without a usable bearer token the optional dependency yields nobody
      rather than an error. */
  lemma AnonymousIsNobody(t: Tables, token: Option<string>, decode: string -> Option<Payload>)
    requires Consistent(t)
    requires token.None? || token == Some("") || decode(token.value).None?
    ensures GetCurrentOptionalUser(t, token, decode) == Ok(None)
  {
  }
}
