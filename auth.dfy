/** The identity cache (middleware/auth.py): a table from identity to user, seeded
    with the public user, consulted and pruned when a bearer token is presented,
    grown when an access token is issued. Token decoding and encoding, the clock and
    the YAML user list are parameters. */
module Auth {
  import opened Http
  import opened Text

  const PUBLIC := "public"
  const UNDEFINED := "undefined"
  const INVALID_CREDENTIALS := "Invalid authentication credentials"
  const KEEP_PUBLIC := "Unable to remove default access authority"
  const NO_USER_DATA := "User data not found in the provided path"

  /** A user: identity, policy list and the time after which it has expired. */
  datatype User = User(identity: string, policies: seq<string>, expireTime: int)

  type Table = map<string, User>

  /** The claims of a decoded token; None when decoding raises. */
  type Decoder = string -> Option<map<string, string>>

  /** The `users` section of the YAML list: e-mail to the policy list of its entry,
      None when the entry has no `policies`. */
  type UserInfo = map<string, Option<seq<string>>>

  /** The table after a call, and what the call returned or raised. */
  datatype Step<T> = Step(table: Table, result: Result<T>)

  const INVALID: Failure := HttpError(UNAUTHORIZED, INVALID_CREDENTIALS)

  /** The public user: its one policy is the public access value up to its first '-'. */
  function PublicUser(publicAccess: string, expireTime: int): User
  {
    User(PUBLIC, [Before(publicAccess, '-')], expireTime)
  }

  /** Every entry is stored under its own identity, and the public user is present. */
  predicate Consistent(table: Table)
  {
    PUBLIC in table && forall k :: k in table ==> table[k].identity == k
  }

  /** The identity a token carries, when it decodes and has one. */
  function Identity(token: string, decode: Decoder): Option<string>
  {
    match decode(token)
    case None => None
    case Some(claims) => if "identity" in claims then Some(claims["identity"]) else None
  }

  // ---------------------------------------------------------------------------
  // `authenticate_token`

  /** `authenticate_token` as written: an expired entry is deleted before the lookup
      that then fails, whichever identity it is, the public one included. */
  function AuthenticateAsWritten(table: Table, token: string, decode: Decoder, now: int): Step<User>
  {
    if token == UNDEFINED then
      Step(table, if PUBLIC in table then Ok(table[PUBLIC]) else Err(INVALID))
    else match Identity(token, decode)
      case None => Step(table, Err(INVALID))
      case Some(id) =>
        if id !in table then Step(table, Err(INVALID))
        else if now > table[id].expireTime then Step(table - {id}, Err(INVALID))
        else Step(table, Ok(table[id]))
  }

  /** `authenticate_token` with the public user exempt from expiry, so that the
      default authority can never disappear from the table. */
  function Authenticate(table: Table, token: string, decode: Decoder, now: int): Step<User>
  {
    if token == UNDEFINED then
      Step(table, if PUBLIC in table then Ok(table[PUBLIC]) else Err(INVALID))
    else match Identity(token, decode)
      case None => Step(table, Err(INVALID))
      case Some(id) =>
        if id !in table then Step(table, Err(INVALID))
        else if id != PUBLIC && now > table[id].expireTime then Step(table - {id}, Err(INVALID))
        else Step(table, Ok(table[id]))
  }

  /** As written, a token for the public identity presented after the public user's
      expiry deletes the public entry, and every anonymous request then fails. */
  lemma PublicEvictedAsWritten()
    ensures var table := map[PUBLIC := PublicUser("open-access", 0)];
      var decode: Decoder := (t: string) => Some(map["identity" := PUBLIC]);
      var after := AuthenticateAsWritten(table, "token-of-public", decode, 1).table;
      PUBLIC !in after && AuthenticateAsWritten(after, UNDEFINED, decode, 1).result == Err(INVALID)
  {
    var decode: Decoder := (t: string) => Some(map["identity" := PUBLIC]);
    assert Identity("token-of-public", decode) == Some(PUBLIC);
  }

  /** The correction changes nothing but the public user's expiry. */
  lemma AuthenticateDiffersOnlyOnPublic(table: Table, token: string, decode: Decoder, now: int)
    requires token == UNDEFINED || Identity(token, decode) != Some(PUBLIC) || PUBLIC !in table ||
             now <= table[PUBLIC].expireTime
    ensures Authenticate(table, token, decode, now) == AuthenticateAsWritten(table, token, decode, now)
  {
  }

  /** The anonymous token gets the public user and changes nothing. */
  lemma AuthenticateUndefined(table: Table, decode: Decoder, now: int)
    requires Consistent(table)
    ensures Authenticate(table, UNDEFINED, decode, now) == Step(table, Ok(table[PUBLIC]))
  {
  }

  /** A token is accepted exactly when it is the anonymous one, or it carries an
      identity that is cached and has not expired (the expiry time itself still
      counts); an accepted token leaves the table as it was and yields the cached
      user. */
  lemma AuthenticateAccepts(table: Table, token: string, decode: Decoder, now: int)
    requires Consistent(table)
    ensures var s := Authenticate(table, token, decode, now);
      s.result.Ok? <==>
        token == UNDEFINED ||
        (Identity(token, decode).Some? && Identity(token, decode).value in table &&
         (Identity(token, decode).value == PUBLIC || now <= table[Identity(token, decode).value].expireTime))
    ensures var s := Authenticate(table, token, decode, now);
      s.result.Ok? ==>
        s.table == table && s.result.value in table.Values &&
        s.result.value == table[if token == UNDEFINED then PUBLIC else Identity(token, decode).value]
  {
  }

  /** Every refusal is the same 401; it deletes at most the presented identity, and
      only when that identity has expired and is not the public one. */
  lemma AuthenticateRejects(table: Table, token: string, decode: Decoder, now: int)
    requires Consistent(table)
    ensures var s := Authenticate(table, token, decode, now);
      s.result.Err? ==>
        s.result.error == INVALID &&
        (s.table == table ||
         (token != UNDEFINED && Identity(token, decode).Some? &&
          var id := Identity(token, decode).value;
          id in table && id != PUBLIC && now > table[id].expireTime && s.table == table - {id}))
  {
  }

  /** Authentication keeps the table consistent: the public user stays. */
  lemma AuthenticateKeepsPublic(table: Table, token: string, decode: Decoder, now: int)
    requires Consistent(table)
    ensures Consistent(Authenticate(table, token, decode, now).table)
    ensures Authenticate(table, token, decode, now).table[PUBLIC] == table[PUBLIC]
  {
  }

  // ---------------------------------------------------------------------------
  // The endpoints

  /** `get_user_access_scope`: the policies of the authenticated user. */
  function AccessScope(table: Table, token: string, decode: Decoder, now: int): Step<seq<string>>
  {
    var s := Authenticate(table, token, decode, now);
    Step(s.table, if s.result.Ok? then Ok(s.result.value.policies) else Err(s.result.error))
  }

  /** The scope is the policy list of the user the token authenticates, and nothing
      else; a refused token gives the authentication's 401. */
  lemma AccessScopeIsPolicies(table: Table, token: string, decode: Decoder, now: int)
    requires Consistent(table)
    ensures var s := AccessScope(table, token, decode, now);
      var a := Authenticate(table, token, decode, now);
      s.table == a.table && (s.result.Ok? <==> a.result.Ok?) &&
      (s.result.Ok? ==> s.result.value == a.result.value.policies) &&
      (s.result.Err? ==> s.result.error == INVALID)
  {
    AuthenticateRejects(table, token, decode, now);
  }

  /** `revoke_user_authority` */
  function Revoke(table: Table, token: string, decode: Decoder, now: int): Step<bool>
  {
    var s := Authenticate(table, token, decode, now);
    if s.result.Err? then Step(s.table, Err(s.result.error))
    else if s.result.value.identity == PUBLIC then Step(s.table, Err(HttpError(UNAUTHORIZED, KEEP_PUBLIC)))
    else if s.result.value.identity !in s.table then Step(s.table, Err(Crash("KeyError")))
    else Step(s.table - {s.result.value.identity}, Ok(true))
  }

  /** Revocation refuses the public user with its own 401 and changes nothing; for any
      other authenticated user it removes exactly that entry and returns True. */
  lemma RevokeRemovesOnlyCaller(table: Table, token: string, decode: Decoder, now: int)
    requires Consistent(table)
    ensures var a := Authenticate(table, token, decode, now);
      var s := Revoke(table, token, decode, now);
      Consistent(s.table) &&
      (a.result.Ok? && a.result.value.identity == PUBLIC ==>
        s == Step(table, Err(HttpError(UNAUTHORIZED, KEEP_PUBLIC)))) &&
      (a.result.Ok? && a.result.value.identity != PUBLIC ==>
        s == Step(table - {a.result.value.identity}, Ok(true)) && a.result.value.identity in table) &&
      (a.result.Err? ==> s.result == Err(INVALID))
  {
    AuthenticateAccepts(table, token, decode, now);
    AuthenticateRejects(table, token, decode, now);
    AuthenticateKeepsPublic(table, token, decode, now);
  }

  /** `create_user_authority(identity, userinfo)`: a new user's expiry is given. */
  function CreateAuthority(table: Table, identity: string, info: UserInfo, expireTime: int): Step<User>
  {
    var email := Before(identity, '>');
    if email !in info then
      Step(table, if PUBLIC in table then Ok(table[PUBLIC]) else Err(Crash("KeyError")))
    else if identity in table then Step(table, Ok(table[identity]))
    else match info[email]
      case None => Step(table, Err(Crash("KeyError")))
      case Some(policies) =>
        var user := User(identity, policies, expireTime);
        Step(table[identity := user], Ok(user))
  }

  /** The e-mail is the identity up to its first '>'. An unknown e-mail gets the public
      user, a cached identity its cached user with its old policies, and a new one a
      user with the e-mail's policies, stored under the identity; nothing else in the
      table changes. */
  lemma CreateAuthorityCases(table: Table, identity: string, info: UserInfo, expireTime: int)
    requires Consistent(table)
    ensures var email := Before(identity, '>');
      var s := CreateAuthority(table, identity, info, expireTime);
      Consistent(s.table) &&
      (email !in info ==> s == Step(table, Ok(table[PUBLIC]))) &&
      (email in info && identity in table ==> s == Step(table, Ok(table[identity]))) &&
      (email in info && identity !in table && info[email].Some? ==>
        s.result == Ok(User(identity, info[email].value, expireTime)) &&
        s.table == table[identity := s.result.value] &&
        forall k :: k in table ==> k in s.table && s.table[k] == table[k]) &&
      (email in info && identity !in table && info[email].None? ==> s == Step(table, Err(Crash("KeyError"))))
  {
  }

  /** `generate_access_token`: the YAML read is the `info` parameter (None when it
      fails); the token is the encoding of the user `create_user_authority` returns. */
  function AccessToken(table: Table, identity: string, info: Option<UserInfo>, expireTime: int,
                       encode: User -> string): Step<string>
  {
    if info.None? then Step(table, Err(HttpError(NOT_FOUND, NO_USER_DATA)))
    else
      var s := CreateAuthority(table, identity, info.value, expireTime);
      Step(s.table, if s.result.Ok? then Ok(encode(s.result.value)) else Err(s.result.error))
  }

  /** An unreadable user list gives 404 and changes nothing; otherwise the token
      encodes the user the authority creation yields, so an unknown e-mail gets a
      token for the public user. */
  lemma AccessTokenEncodesUser(table: Table, identity: string, info: Option<UserInfo>, expireTime: int,
                               encode: User -> string)
    requires Consistent(table)
    ensures var s := AccessToken(table, identity, info, expireTime, encode);
      (info.None? ==> s == Step(table, Err(HttpError(NOT_FOUND, NO_USER_DATA)))) &&
      (info.Some? && Before(identity, '>') !in info.value ==> s == Step(table, Ok(encode(table[PUBLIC])))) &&
      (info.Some? ==> var c := CreateAuthority(table, identity, info.value, expireTime);
        s.table == c.table && (s.result.Ok? <==> c.result.Ok?) &&
        (c.result.Ok? ==> s.result.value == encode(c.result.value)))
  {
  }

  // ---------------------------------------------------------------------------

  class Authenticator {
    var authorizedUser: Table

    ghost predicate Valid()
      reads this
    {
      Consistent(authorizedUser)
    }

    /** A new authenticator knows only the public user. */
    constructor (publicAccess: string, publicExpireTime: int)
      ensures authorizedUser == map[PUBLIC := PublicUser(publicAccess, publicExpireTime)]
      ensures Valid()
    {
      authorizedUser := map[PUBLIC := PublicUser(publicAccess, publicExpireTime)];
    }

    method AuthenticateToken(token: string, decode: Decoder, now: int) returns (r: Result<User>)
      requires Valid()
      modifies this
      ensures Valid()
      ensures Step(authorizedUser, r) == Authenticate(old(authorizedUser), token, decode, now)
    {
      if token == UNDEFINED {
        return Ok(authorizedUser[PUBLIC]);
      }
      var claims := decode(token);
      if claims.None? || "identity" !in claims.value {
        return Err(INVALID);
      }
      var id := claims.value["identity"];
      if id !in authorizedUser {
        return Err(INVALID);
      }
      if id != PUBLIC && now > authorizedUser[id].expireTime {
        authorizedUser := authorizedUser - {id};
        return Err(INVALID);
      }
      return Ok(authorizedUser[id]);
    }

    method GetUserAccessScope(token: string, decode: Decoder, now: int) returns (r: Result<seq<string>>)
      requires Valid()
      modifies this
      ensures Valid()
      ensures Step(authorizedUser, r) == AccessScope(old(authorizedUser), token, decode, now)
    {
      var user := AuthenticateToken(token, decode, now);
      if user.Err? {
        return Err(user.error);
      }
      return Ok(user.value.policies);
    }

    method RevokeUserAuthority(token: string, decode: Decoder, now: int) returns (r: Result<bool>)
      requires Valid()
      modifies this
      ensures Valid()
      ensures Step(authorizedUser, r) == Revoke(old(authorizedUser), token, decode, now)
    {
      var user := AuthenticateToken(token, decode, now);
      if user.Err? {
        return Err(user.error);
      }
      if user.value.identity == PUBLIC {
        return Err(HttpError(UNAUTHORIZED, KEEP_PUBLIC));
      }
      if user.value.identity !in authorizedUser {
        return Err(Crash("KeyError"));
      }
      authorizedUser := authorizedUser - {user.value.identity};
      return Ok(true);
    }

    method CreateUserAuthority(identity: string, info: UserInfo, expireTime: int) returns (r: Result<User>)
      requires Valid()
      modifies this
      ensures Valid()
      ensures Step(authorizedUser, r) == CreateAuthority(old(authorizedUser), identity, info, expireTime)
    {
      var email := Before(identity, '>');
      if email !in info {
        return Ok(authorizedUser[PUBLIC]);
      }
      if identity in authorizedUser {
        return Ok(authorizedUser[identity]);
      }
      if info[email].None? {
        return Err(Crash("KeyError"));
      }
      var user := User(identity, info[email].value, expireTime);
      authorizedUser := authorizedUser[identity := user];
      return Ok(user);
    }

    method GenerateAccessToken(identity: string, info: Option<UserInfo>, expireTime: int, encode: User -> string)
      returns (r: Result<string>)
      requires Valid()
      modifies this
      ensures Valid()
      ensures Step(authorizedUser, r) == AccessToken(old(authorizedUser), identity, info, expireTime, encode)
    {
      if info.None? {
        return Err(HttpError(NOT_FOUND, NO_USER_DATA));
      }
      var user := CreateUserAuthority(identity, info.value, expireTime);
      if user.Err? {
        return Err(user.error);
      }
      return Ok(encode(user.value));
    }
  }
}
