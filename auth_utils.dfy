/** server/src/auth/utils.py and server/src/auth/config.py: the claims a
    token carries. Signing, verifying and bcrypt are not part of this model;
    a token is described by its claim set. Times are whole seconds. */
module AuthUtils {
  import opened Common

  /** A claim value: text, or a NumericDate in seconds. */
  datatype Claim = Text(text: string) | Time(seconds: int)

  type Payload = map<string, Claim>

  const TokenTypeField: string := "type"
  const AccessTokenType: string := "access"
  const RefreshTokenType: string := "refresh"

  /** `access_token_expire_minutes` and `refresh_token_expire_minutes`. */
  const AccessTokenExpireMinutes: int := 15
  const RefreshTokenExpireMinutes: int := 60 * 24 * 30

  /** The claims `encode_jwt` signs: a copy of the payload with `iat` set
      to now and `exp` to now plus the lifetime (these two override any
      `iat`/`exp` already there). */
  function EncodeClaims(payload: Payload, now: int, expireMinutes: int): (r: Payload)
    ensures r.Keys == payload.Keys + {"iat", "exp"}
    ensures r["iat"] == Time(now) && r["exp"] == Time(now + 60 * expireMinutes)
    ensures forall k :: k in payload && k != "iat" && k != "exp" ==> r[k] == payload[k]
  {
    payload["iat" := Time(now)]["exp" := Time(now + 60 * expireMinutes)]
  }

  /** A token expires exactly `expireMinutes` minutes after it was issued. */
  lemma ExpiryAfterIssue(payload: Payload, now: int, expireMinutes: int)
    ensures var r := EncodeClaims(payload, now, expireMinutes);
      r["exp"].seconds - r["iat"].seconds == 60 * expireMinutes
  {
  }

  /** `create_token`: `{"type": token_type, **payload}`, so a `type` key in
      the payload wins over `token_type`. */
  function CreateTokenClaims(tokenType: string, payload: Payload, now: int, expireMinutes: int): (r: Payload)
    ensures TokenTypeField in r
    ensures TokenTypeField !in payload ==> r[TokenTypeField] == Text(tokenType)
    ensures TokenTypeField in payload ==> r[TokenTypeField] == payload[TokenTypeField]
    ensures r.Keys == payload.Keys + {TokenTypeField, "iat", "exp"}
  {
    EncodeClaims(map[TokenTypeField := Text(tokenType)] + payload, now, expireMinutes)
  }

  function Digit(d: nat): (c: char)
    requires d < 10
    ensures '0' <= c <= '9' && (c as int) - ('0' as int) == d
  {
    ('0' as int + d) as char
  }

  /** `str(user_id)`: here the decimal text of the id. */
  function IdText(n: nat): (s: string)
    ensures |s| > 0 && forall i :: 0 <= i < |s| ==> '0' <= s[i] <= '9'
    decreases n
  {
    if n < 10 then [Digit(n)] else IdText(n / 10) + [Digit(n % 10)]
  }

  function DigitsValue(s: string): nat
    requires forall i :: 0 <= i < |s| ==> '0' <= s[i] <= '9'
  {
    if |s| == 0 then 0
    else DigitsValue(s[..|s| - 1]) * 10 + ((s[|s| - 1] as int) - ('0' as int))
  }

  /** The id a subject claim names, as the database reads it back. */
  function ParseId(s: string): (r: Option<Id>)
    ensures r.Some? <==> |s| > 0 && forall i :: 0 <= i < |s| ==> '0' <= s[i] <= '9'
  {
    if |s| > 0 && forall i :: 0 <= i < |s| ==> '0' <= s[i] <= '9' then Some(DigitsValue(s)) else None
  }

  /** The subject written into a token reads back as the same id. */
  lemma {:induction false} ParseIdText(n: nat)
    ensures ParseId(IdText(n)) == Some(n)
    decreases n
  {
    var s := IdText(n);
    if n < 10 {
      assert s[..|s| - 1] == [];
    } else {
      ParseIdText(n / 10);
      assert s[..|s| - 1] == IdText(n / 10);
      assert DigitsValue(s) == DigitsValue(IdText(n / 10)) * 10 + n % 10;
    }
  }

  /** Different users get different subjects. */
  lemma IdTextInjective(a: nat, b: nat)
    requires IdText(a) == IdText(b)
    ensures a == b
  {
    ParseIdText(a);
    ParseIdText(b);
  }

  /** The claims of `create_access_token` / `create_refresh_token`. */
  function UserClaims(tokenType: string, userId: Id, username: string, now: int, expireMinutes: int): (r: Payload)
    ensures r.Keys == {TokenTypeField, "sub", "username", "iat", "exp"}
    ensures r[TokenTypeField] == Text(tokenType)
    ensures r["sub"] == Text(IdText(userId)) && r["username"] == Text(username)
    ensures r["iat"] == Time(now) && r["exp"] == Time(now + 60 * expireMinutes)
  {
    CreateTokenClaims(tokenType, map["sub" := Text(IdText(userId)), "username" := Text(username)], now, expireMinutes)
  }

  /** `create_access_token`: type "access", valid for 15 minutes. */
  function AccessClaims(userId: Id, username: string, now: int): (r: Payload)
    ensures r.Keys == {TokenTypeField, "sub", "username", "iat", "exp"}
    ensures r[TokenTypeField] == Text(AccessTokenType)
    ensures r["exp"] == Time(now + 15 * 60)
    ensures r["sub"] == Text(IdText(userId)) && r["username"] == Text(username)
  {
    UserClaims(AccessTokenType, userId, username, now, AccessTokenExpireMinutes)
  }

  /** `create_refresh_token`: type "refresh", valid for 30 days. */
  function RefreshClaims(userId: Id, username: string, now: int): (r: Payload)
    ensures r.Keys == {TokenTypeField, "sub", "username", "iat", "exp"}
    ensures r[TokenTypeField] == Text(RefreshTokenType)
    ensures r["exp"] == Time(now + 30 * 24 * 60 * 60)
    ensures r["sub"] == Text(IdText(userId)) && r["username"] == Text(username)
  {
    UserClaims(RefreshTokenType, userId, username, now, RefreshTokenExpireMinutes)
  }

  /** An access and a refresh token issued together differ only in their
      type and expiry. */
  lemma AccessAndRefreshDiffer(userId: Id, username: string, now: int)
    ensures var a, r := AccessClaims(userId, username, now), RefreshClaims(userId, username, now);
      && a.Keys == r.Keys
      && a[TokenTypeField] != r[TokenTypeField]
      && forall k :: k in a && k != TokenTypeField && k != "exp" ==> a[k] == r[k]
  {
  }
}
