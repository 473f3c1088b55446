/** The auth service: checks credentials against a static store and issues an
    HS256-signed JWT (RFC 7519, signed as in section 3.2 of RFC 7518) with a
    one-hour `exp` claim; validates a presented token and echoes its identity.
    The JWT library is foreign code: it enters the model as a pair of
    functions `Jwt(sign, parse)`, and what the model relies on about them is
    the predicate `Sound`, taken as a precondition. Time is Unix seconds and is
    passed in. */
module Auth {
  import opened Http

  /** The signing key used when JWT_SECRET is not configured. */
  const FallbackKey: string := "fallback_secret_for_local_testing"

  /** Token lifetime in seconds (one hour). */
  const TokenLifetime: int := 3600

  /** getJWTKey: the configured secret when it is non-empty, otherwise the fixed
      fallback. The key is never empty. */
  function JwtKey(secret: string): (key: string)
    ensures secret != "" ==> key == secret
    ensures secret == "" ==> key == FallbackKey
    ensures key != ""
  {
    if secret == "" then FallbackKey else secret
  }

  /** The credential store: username to password and username to role. */
  datatype CredentialStore = CredentialStore(users: map<string, string>, roles: map<string, string>)

  const Store: CredentialStore := CredentialStore(
    map["student1" := "pass123", "student2" := "pass123", "faculty1" := "pass123"],
    map["student1" := "student", "student2" := "student", "faculty1" := "faculty"])

  /** Every user has a role and every role belongs to a user. */
  predicate Consistent(store: CredentialStore) {
    store.users.Keys == store.roles.Keys
  }

  lemma StoreConsistent()
    ensures Consistent(Store)
  {
  }

  /** roles[username] as Go reads it: the empty string for a missing key. */
  function RoleOf(store: CredentialStore, username: string): string {
    if username in store.roles then store.roles[username] else ""
  }

  datatype Credentials = Credentials(username: string, password: string)

  /** The claims a token carries: identity, role and the `exp` claim (absent in
      tokens not minted here). */
  datatype Claims = Claims(username: string, role: string, expiresAt: Option<int>)

  /** The JWT library: `sign(claims, key)` is the compact token string,
      `parse(token, key, now)` is the claims when the string parses, its
      signature verifies under `key` and the token is not expired at `now`. */
  datatype Jwt = Jwt(sign: (Claims, string) -> string, parse: (string, string, int) -> Option<Claims>)

  /** Not expired at `now`: the library accepts while now < exp. */
  predicate Live(c: Claims, now: int) {
    c.expiresAt.None? || now < c.expiresAt.value
  }

  /** What the model assumes of the library: a token signed under a key parses
      back to its claims under that key while live and is rejected once
      expired; under any other key it is rejected; nothing expired is ever
      accepted. */
  ghost predicate Sound(lib: Jwt) {
    (forall c, key, now :: lib.parse(lib.sign(c, key), key, now) == if Live(c, now) then Some(c) else None) &&
    (forall c, key, other, now :: key != other ==> lib.parse(lib.sign(c, key), other, now) == None) &&
    (forall t, key, now :: lib.parse(t, key, now).Some? ==> Live(lib.parse(t, key, now).value, now))
  }

  // ---------------------------------------------------------------------------
  // login
  // ---------------------------------------------------------------------------

  datatype LoginResponse = LoginBadRequest | LoginUnauthorized | Issued(token: string, role: string)

  /** The status code login writes for each answer. */
  function LoginStatus(r: LoginResponse): (code: int)
    ensures code == StatusOK <==> r.Issued?
    ensures code == StatusBadRequest <==> r == LoginBadRequest
    ensures code == StatusUnauthorized <==> r == LoginUnauthorized
  {
    match r
    case LoginBadRequest => StatusBadRequest
    case LoginUnauthorized => StatusUnauthorized
    case Issued(_, _) => StatusOK
  }

  /** The claims minted for `username` at time `now`. */
  function IssuedClaims(store: CredentialStore, username: string, now: int): Claims {
    Claims(username, RoleOf(store, username), Some(now + TokenLifetime))
  }

  predicate CredentialsMatch(store: CredentialStore, creds: Credentials) {
    creds.username in store.users && store.users[creds.username] == creds.password
  }

  /** login: `body` is `None` when the request body did not decode. */
  function Login(store: CredentialStore, lib: Jwt, secret: string, body: Option<Credentials>, now: int): (r: LoginResponse)
    ensures body.None? <==> r == LoginBadRequest
    ensures body.Some? ==> (r.Issued? <==> CredentialsMatch(store, body.value))
    ensures body.Some? && !CredentialsMatch(store, body.value) ==> r == LoginUnauthorized
    ensures r.Issued? ==> r.role == RoleOf(store, body.value.username)
    ensures r.Issued? ==> r.token == lib.sign(IssuedClaims(store, body.value.username, now), JwtKey(secret))
  {
    if body.None? then LoginBadRequest
    else
      var creds := body.value;
      if creds.username !in store.users || store.users[creds.username] != creds.password then LoginUnauthorized
      else
        Issued(lib.sign(IssuedClaims(store, creds.username, now), JwtKey(secret)), RoleOf(store, creds.username))
  }

  /** In a consistent store every successful login resolves a real role. */
  lemma LoginResolvesRole(store: CredentialStore, lib: Jwt, secret: string, creds: Credentials, now: int)
    requires Consistent(store)
    requires Login(store, lib, secret, Some(creds), now).Issued?
    ensures creds.username in store.roles
    ensures Login(store, lib, secret, Some(creds), now).role == store.roles[creds.username]
  {
  }

  /** Unknown user and wrong password get the same answer, with the same status. */
  lemma LoginFailuresIndistinguishable(store: CredentialStore, lib: Jwt, secret: string,
                                       u: string, p: string, v: string, q: string, now: int)
    requires u !in store.users
    requires v in store.users && store.users[v] != q
    ensures Login(store, lib, secret, Some(Credentials(u, p)), now)
         == Login(store, lib, secret, Some(Credentials(v, q)), now)
         == LoginUnauthorized
    ensures LoginStatus(Login(store, lib, secret, Some(Credentials(u, p)), now)) == StatusUnauthorized
  {
  }

  // ---------------------------------------------------------------------------
  // validate
  // ---------------------------------------------------------------------------

  datatype ValidateResponse = ValidateUnauthorized | Valid(username: string, role: string)

  /** The status code validate writes: 200 for a valid token, 401 otherwise. */
  function ValidateStatus(r: ValidateResponse): (code: int)
    ensures code == StatusOK <==> r.Valid?
    ensures code == StatusUnauthorized <==> r == ValidateUnauthorized
  {
    if r.Valid? then StatusOK else StatusUnauthorized
  }

  /** validate: an empty header is refused; otherwise a leading "Bearer " is
      removed if present and the rest is handed to the library. */
  function Validate(lib: Jwt, secret: string, header: string, now: int): (r: ValidateResponse)
    ensures header == "" ==> r == ValidateUnauthorized
    ensures r.Valid? <==> header != "" && lib.parse(TrimPrefix(header, Bearer), JwtKey(secret), now).Some?
    ensures r.Valid? ==> var c := lib.parse(TrimPrefix(header, Bearer), JwtKey(secret), now).value;
                         r.username == c.username && r.role == c.role
  {
    if header == "" then ValidateUnauthorized
    else
      var token := TrimPrefix(header, Bearer);
      match lib.parse(token, JwtKey(secret), now)
      case None => ValidateUnauthorized
      case Some(c) => Valid(c.username, c.role)
  }

  /** The prefix is optional: a bare token is validated like the same token
      behind "Bearer ". */
  lemma BearerPrefixOptional(lib: Jwt, secret: string, token: string, now: int)
    requires token != "" && !HasPrefix(token, Bearer)
    ensures Validate(lib, secret, token, now) == Validate(lib, secret, Bearer + token, now)
  {
  }

  // ---------------------------------------------------------------------------
  // login and validate together
  // ---------------------------------------------------------------------------

  /** A token from a successful login validates, for the whole hour after
      issue, to the submitted username and the role login returned. */
  lemma LoginThenValidate(store: CredentialStore, lib: Jwt, secret: string, creds: Credentials, issuedAt: int, now: int)
    requires Sound(lib)
    requires Login(store, lib, secret, Some(creds), issuedAt).Issued?
    requires now < issuedAt + TokenLifetime
    ensures var r := Login(store, lib, secret, Some(creds), issuedAt);
            Validate(lib, secret, Bearer + r.token, now) == Valid(creds.username, r.role)
  {
  }

  /** From one hour after issue on, the same token is refused. */
  lemma IssuedTokenExpires(store: CredentialStore, lib: Jwt, secret: string, creds: Credentials, issuedAt: int, now: int)
    requires Sound(lib)
    requires Login(store, lib, secret, Some(creds), issuedAt).Issued?
    requires now >= issuedAt + TokenLifetime
    ensures Validate(lib, secret, Bearer + Login(store, lib, secret, Some(creds), issuedAt).token, now) == ValidateUnauthorized
  {
  }

  /** A token issued under one key is refused by a validator with another key. */
  lemma OtherKeyRefused(store: CredentialStore, lib: Jwt, secret: string, otherSecret: string, creds: Credentials, issuedAt: int, now: int)
    requires Sound(lib)
    requires JwtKey(secret) != JwtKey(otherSecret)
    requires Login(store, lib, secret, Some(creds), issuedAt).Issued?
    ensures Validate(lib, otherSecret, Bearer + Login(store, lib, secret, Some(creds), issuedAt).token, now) == ValidateUnauthorized
  {
  }

  /** The fallback key is public: when JWT_SECRET is unset, anyone can mint a
      token for any identity and role that validate accepts. */
  lemma FallbackKeyForgeable(lib: Jwt, username: string, role: string, now: int)
    requires Sound(lib)
    ensures Validate(lib, "", Bearer + lib.sign(Claims(username, role, None), FallbackKey), now) == Valid(username, role)
  {
  }
}
