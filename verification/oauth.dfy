/**
 * Bearer tokens (api/v1/users/oauth.py). A token carries a claim map; `exp`
 * is the JWT expiration time claim of section 4.1.4 of RFC 7519, in integer
 * seconds. Signing and decoding are the JOSE library's business and appear
 * here as function parameters: `sign` stands for `jwt.encode` with the server
 * key and algorithm, `decode` for `jwt.decode`, returning None where it
 * raises `JWTError` (bad signature, malformed token, expired `exp`).
 */
module OAuth {
  import opened Wrappers
  import opened Http
  import opened Schema

  datatype Claim = Str(text: string) | NumericDate(seconds: int) | JsonNull

  type Claims = map<string, Claim>

  const SecondsPerWeek := 604800
  const ExpiryKey := "exp"
  const SubjectKey := "uuid_pk"

  /** `TokenData`: two required string fields. */
  datatype TokenData = TokenData(uuidPk: string, username: string)

  /**
   * Building a `TokenData` from the values given for its fields; validation
   * fails (None) unless both are present strings.
   */
  function MakeTokenData(uuidPk: Option<Claim>, username: Option<Claim>): (r: Option<TokenData>)
    ensures r.Some? <==> uuidPk.Some? && uuidPk.value.Str? && username.Some? && username.value.Str?
    ensures r.Some? ==> r.value.uuidPk == uuidPk.value.text && r.value.username == username.value.text
  {
    match (uuidPk, username)
    case (Some(Str(u)), Some(Str(n))) => Some(TokenData(u, n))
    case _ => None
  }

  /** The claim map `create_token` signs: a copy of the caller's map with `exp` set. */
  function WithExpiry(data: Claims, now: int, weeks: nat): (r: Claims)
    ensures r.Keys == data.Keys + {ExpiryKey}
    ensures r[ExpiryKey] == NumericDate(now + weeks * SecondsPerWeek)
    ensures forall k :: k in data && k != ExpiryKey ==> r[k] == data[k]
  {
    data[ExpiryKey := NumericDate(now + weeks * SecondsPerWeek)]
  }

  /**
   * `create_token`: copy the claims, add `exp` = now + `weeks` weeks, sign.
   * Maps are values, so the caller's claims are never modified.
   */
  method CreateToken(data: Claims, now: int, weeks: nat, sign: Claims -> string) returns (token: string)
    ensures token == sign(WithExpiry(data, now, weeks))
  {
    var toEncode := data;
    var expire := now + weeks * SecondsPerWeek;
    toEncode := toEncode[ExpiryKey := NumericDate(expire)];
    token := sign(toEncode);
  }

  /** The 401 every token failure becomes, with the Bearer challenge of section 3 of RFC 6750. */
  function CredentialsException(): (e: Error)
    ensures e.HttpError? && e.status == UNAUTHORIZED
    ensures "WWW-Authenticate" in e.headers && e.headers["WWW-Authenticate"] == "Bearer"
  {
    HttpError(UNAUTHORIZED, "Invalid credentials", map["WWW-Authenticate" := "Bearer"])
  }

  /**
   * `verify_token`. A token that does not decode, or whose claims hold no
   * `uuid_pk` (or a null one), is the credentials exception. Otherwise the
   * token data is built from `uuid_pk` alone; `username` is required, so the
   * validation error escapes: no token is ever accepted.
   */
  function VerifyToken(token: string, decode: string -> Option<Claims>): (r: Result<TokenData, Error>)
    ensures r.Failure?
    ensures r.error == CredentialsException() <==>
              decode(token).None? || SubjectKey !in decode(token).value || decode(token).value[SubjectKey] == JsonNull
    ensures r.error != CredentialsException() ==> r.error == Crash(ValidationError)
  {
    match decode(token)
    case None => Failure(CredentialsException())
    case Some(claims) =>
      if SubjectKey !in claims || claims[SubjectKey] == JsonNull then Failure(CredentialsException())
      else
        match MakeTokenData(Some(claims[SubjectKey]), None)
        case None => Failure(Crash(ValidationError))
        case Some(data) => Success(data)
  }

  /** The first user whose `uuid_pk` is `uid`, or None: a missing user is not an error. */
  function FindUser(users: map<string, User>, uid: string): (r: Option<User>)
    ensures r.Some? <==> uid in users
    ensures r.Some? ==> r.value == users[uid]
  {
    if uid in users then Some(users[uid]) else None
  }

  lemma FindUserMatches(t: Tables, uid: string)
    requires Consistent(t)
    ensures FindUser(t.users, uid).Some? <==> exists k :: k in t.users && t.users[k].uuidPk == uid
    ensures FindUser(t.users, uid).Some? ==>
              FindUser(t.users, uid).value in t.users.Values && FindUser(t.users, uid).value.uuidPk == uid
  {
    if exists k :: k in t.users && t.users[k].uuidPk == uid {
      var k :| k in t.users && t.users[k].uuidPk == uid;
      assert k == uid;
    }
  }

  /**
   * `get_current_user`: verify the token, then look the subject up. Since
   * verification never succeeds, neither does this; the lookup it would do
   * is `FindUser`.
   */
  function GetCurrentUser(users: map<string, User>, token: string, decode: string -> Option<Claims>)
    : (r: Result<Option<User>, Error>)
    ensures r.Failure? && r.error == VerifyToken(token, decode).error
  {
    match VerifyToken(token, decode)
    case Failure(e) => Failure(e)
    case Success(data) => Success(FindUser(users, data.uuidPk))
  }

  // ------------------------------------------------------ corrected verification

  const UsernameKey := "username"

  /**
   * `verify_token` as evidently intended: the token data is built from the
   * `uuid_pk` and `username` claims together, so a token carrying both as
   * strings is accepted. The failure cases are those of `VerifyToken`.
   */
  function VerifyTokenCorrected(token: string, decode: string -> Option<Claims>): (r: Result<TokenData, Error>)
    ensures r.Success? <==>
              && decode(token).Some?
              && SubjectKey in decode(token).value && decode(token).value[SubjectKey].Str?
              && UsernameKey in decode(token).value && decode(token).value[UsernameKey].Str?
    ensures r.Success? ==>
              r.value == TokenData(decode(token).value[SubjectKey].text, decode(token).value[UsernameKey].text)
    ensures r.Failure? ==>
              (r.error == CredentialsException() <==>
                 decode(token).None? || SubjectKey !in decode(token).value ||
                 decode(token).value[SubjectKey] == JsonNull)
    ensures r.Failure? && r.error != CredentialsException() ==> r.error == Crash(ValidationError)
  {
    match decode(token)
    case None => Failure(CredentialsException())
    case Some(claims) =>
      if SubjectKey !in claims || claims[SubjectKey] == JsonNull then Failure(CredentialsException())
      else
        match MakeTokenData(Some(claims[SubjectKey]),
                            if UsernameKey in claims then Some(claims[UsernameKey]) else None)
        case None => Failure(Crash(ValidationError))
        case Some(data) => Success(data)
  }

  /** `get_current_user` over the corrected verification: the subject's row, or None. */
  function GetCurrentUserCorrected(users: map<string, User>, token: string, decode: string -> Option<Claims>)
    : (r: Result<Option<User>, Error>)
    ensures r.Success? <==> VerifyTokenCorrected(token, decode).Success?
    ensures r.Failure? ==> r.error == VerifyTokenCorrected(token, decode).error
    ensures r.Success? ==> r.value == FindUser(users, VerifyTokenCorrected(token, decode).value.uuidPk)
  {
    match VerifyTokenCorrected(token, decode)
    case Failure(e) => Failure(e)
    case Success(data) => Success(FindUser(users, data.uuidPk))
  }
}
